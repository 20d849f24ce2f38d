/** The bounded phase matcher: one selection is near-optimal and stable, and runs of
 *  fed-back selections always have a candidate. Pose errors are abstract non-negative scores. */
module PhaseMatchers {
  import opened Arithmetic
  import opened Wrappers

  datatype MatchError = NegativeNominal | InvalidPrevious | NoOverlap

  datatype Config = Config(horizonSteps: nat, radius: nat, anchorPenalty: real, switchMargin: real, maxAdvance: nat)
  {
    predicate Valid() {
      horizonSteps >= 1 && anchorPenalty >= 0.0 && switchMargin >= 0.0 && maxAdvance >= 1
    }
  }

  /** `frames` is the number of reference rows. */
  datatype Matcher = Matcher(config: Config, frames: nat)
  {
    predicate Valid() {
      config.Valid() && frames >= config.horizonSteps
    }

    /** The last window start: every action may target the next row, the end is held. */
    function LastStart(): nat {
      var room: int := frames - if config.horizonSteps >= 2 then 2 else 1;
      if room > 0 then room else 0
    }
  }

  /** The matchers that are accepted: a positive horizon the reference can fill, a positive advance,
   *  and no negative penalty or margin. */
  lemma AcceptedMatchers(m: Matcher)
    ensures m.Valid() <==>
      && 0 < m.config.horizonSteps <= m.frames && 0 < m.config.maxAdvance
      && !(m.config.anchorPenalty < 0.0) && !(m.config.switchMargin < 0.0)
  {
  }

  datatype PhaseDecision = PhaseDecision(
    nominal: int, previous: Option<int>, baseline: int, selected: int, best: int,
    selectedPoseError: real, bestPoseError: real, scoreGain: real, first: int, last: int)

  function Clamp(x: int, low: int, high: int): int {
    Max(low, Min(x, high))
  }

  // ----- First minimum ---------------------------------------------------------------

  ghost predicate IsFirstMinimum(scores: seq<real>, i: int) {
    && 0 <= i < |scores|
    && (forall j :: 0 <= j < |scores| ==> scores[i] <= scores[j])
    && (forall j :: 0 <= j < i ==> scores[i] < scores[j])
  }

  function ArgMin(scores: seq<real>): (i: int)
    requires scores != []
    ensures IsFirstMinimum(scores, i)
  {
    if |scores| == 1 then 0
    else
      var front := scores[..|scores| - 1];
      var i := ArgMin(front);
      assert forall j :: 0 <= j < |front| ==> front[j] == scores[j];
      if scores[|scores| - 1] < scores[i] then |scores| - 1 else i
  }

  // ----- One selection -------------------------------------------------------------------

  function CandidateStart(m: Matcher, nominal: int, previous: Option<int>): int {
    var leash := Max(0, nominal - m.config.radius);
    if previous.Some? then Max(leash, previous.value) else leash
  }

  function CandidateStop(m: Matcher, nominal: int, previous: Option<int>): int {
    var leash := Min(m.LastStart(), nominal + m.config.radius);
    if previous.Some? then Min(leash, previous.value + m.config.maxAdvance) else leash
  }

  function Score(m: Matcher, poseErrors: seq<real>, nominal: int, candidate: int): real
    requires 0 <= candidate < |poseErrors|
  {
    var offset := (candidate - nominal) as real;
    poseErrors[candidate] + m.config.anchorPenalty * (offset * offset)
  }

  /** The scores of the candidates start..stop, both included. */
  function Scores(m: Matcher, poseErrors: seq<real>, nominal: int, start: int, stop: int): seq<real>
    requires 0 <= start <= stop < |poseErrors|
  {
    seq(stop + 1 - start, i requires 0 <= i < stop + 1 - start => Score(m, poseErrors, nominal, start + i))
  }

  function Distances(nominal: int, start: int, stop: int): seq<real>
    requires start <= stop
  {
    seq(stop + 1 - start, i => Abs((start + i - nominal) as real))
  }

  /** `poseErrors` scores every reference row against the current state. */
  function Select(m: Matcher, poseErrors: seq<real>, nominalPhase: int,
                  previous: Option<int>): Result<PhaseDecision, MatchError>
    requires m.Valid() && |poseErrors| == m.frames
  {
    if nominalPhase < 0 then Err(NegativeNominal)
    else if previous.Some? && !(0 <= previous.value <= m.LastStart()) then Err(InvalidPrevious)
    else
      var nominal := Min(nominalPhase, m.LastStart());
      var start, stop := CandidateStart(m, nominal, previous), CandidateStop(m, nominal, previous);
      if start > stop then Err(NoOverlap)
      else
        var scores := Scores(m, poseErrors, nominal, start, stop);
        var best, baseline := ArgMin(scores), ArgMin(Distances(nominal, start, stop));
        var gain := scores[baseline] - scores[best];
        var selected := if best != baseline && gain > m.config.switchMargin then best else baseline;
        Ok(PhaseDecision(nominal, previous, start + baseline, start + selected, start + best,
                         poseErrors[start + selected], poseErrors[start + best], gain, start, stop))
  }

  lemma ClosestIsClamp(nominal: int, start: int, stop: int)
    requires start <= stop
    ensures start + ArgMin(Distances(nominal, start, stop)) == Clamp(nominal, start, stop)
  {
    var distances := Distances(nominal, start, stop);
    var i, j := ArgMin(distances), Clamp(nominal, start, stop) - start;
    assert distances[i] <= distances[j];
    assert Abs((start + i - nominal) as real) <= Abs((start + j - nominal) as real);
  }

  /** The baseline is the nominal phase clamped to the candidates. */
  lemma BaselineIsClampedNominal(m: Matcher, poseErrors: seq<real>, nominalPhase: int, previous: Option<int>)
    requires m.Valid() && |poseErrors| == m.frames && Select(m, poseErrors, nominalPhase, previous).Ok?
    ensures var d := Select(m, poseErrors, nominalPhase, previous).value;
            d.baseline == Clamp(d.nominal, d.first, d.last) && d.nominal == Min(nominalPhase, m.LastStart())
  {
    var d := Select(m, poseErrors, nominalPhase, previous).value;
    ClosestIsClamp(d.nominal, d.first, d.last);
  }

  lemma SelectedIsCandidate(m: Matcher, poseErrors: seq<real>, nominalPhase: int, previous: Option<int>)
    requires m.Valid() && |poseErrors| == m.frames && Select(m, poseErrors, nominalPhase, previous).Ok?
    ensures var d, nominal := Select(m, poseErrors, nominalPhase, previous).value, Min(nominalPhase, m.LastStart());
            && d.nominal == nominal
            && CandidateStart(m, nominal, previous) <= d.selected <= CandidateStop(m, nominal, previous)
  {
  }

  /** The best candidate is the first of minimal score. */
  ghost predicate IsBest(m: Matcher, poseErrors: seq<real>, d: PhaseDecision) {
    && 0 <= d.first <= d.best <= d.last < |poseErrors|
    && (forall k :: d.first <= k <= d.last ==>
          Score(m, poseErrors, d.nominal, d.best) <= Score(m, poseErrors, d.nominal, k))
    && (forall k :: d.first <= k < d.best ==>
          Score(m, poseErrors, d.nominal, d.best) < Score(m, poseErrors, d.nominal, k))
  }

  lemma FirstMinimumIsBest(m: Matcher, poseErrors: seq<real>, d: PhaseDecision)
    requires 0 <= d.first <= d.best <= d.last < |poseErrors|
    requires IsFirstMinimum(Scores(m, poseErrors, d.nominal, d.first, d.last), d.best - d.first)
    ensures IsBest(m, poseErrors, d)
  {
    var scores := Scores(m, poseErrors, d.nominal, d.first, d.last);
    forall k | d.first <= k <= d.last
      ensures Score(m, poseErrors, d.nominal, d.best) <= Score(m, poseErrors, d.nominal, k)
      ensures k < d.best ==> Score(m, poseErrors, d.nominal, d.best) < Score(m, poseErrors, d.nominal, k)
    {
      assert scores[k - d.first] == Score(m, poseErrors, d.nominal, k);
    }
  }

  /** How the decision follows from the scores of the best and the baseline candidate. */
  lemma SelectionFollowsGain(m: Matcher, poseErrors: seq<real>, nominalPhase: int, previous: Option<int>)
    requires m.Valid() && |poseErrors| == m.frames && Select(m, poseErrors, nominalPhase, previous).Ok?
    ensures var d := Select(m, poseErrors, nominalPhase, previous).value;
      && 0 <= d.first <= d.best <= d.last <= m.LastStart() < |poseErrors| && d.first <= d.baseline <= d.last
      && IsFirstMinimum(Scores(m, poseErrors, d.nominal, d.first, d.last), d.best - d.first)
      && d.scoreGain == Score(m, poseErrors, d.nominal, d.baseline) - Score(m, poseErrors, d.nominal, d.best)
      && d.selected == (if d.best != d.baseline && d.scoreGain > m.config.switchMargin then d.best else d.baseline)
      && d.selectedPoseError == poseErrors[d.selected] && d.bestPoseError == poseErrors[d.best]
  {
  }

  /** Near-optimality and stability of one selection. */
  lemma SelectionIsNearOptimal(m: Matcher, poseErrors: seq<real>, nominalPhase: int, previous: Option<int>)
    requires m.Valid() && |poseErrors| == m.frames && Select(m, poseErrors, nominalPhase, previous).Ok?
    ensures var d := Select(m, poseErrors, nominalPhase, previous).value;
      && 0 <= d.first <= d.selected <= d.last <= m.LastStart() < |poseErrors|
      && IsBest(m, poseErrors, d) && d.first <= d.baseline <= d.last
      && (forall k :: d.first <= k <= d.last ==>
            Score(m, poseErrors, d.nominal, d.selected) <= Score(m, poseErrors, d.nominal, k) + m.config.switchMargin)
      && (d.selected != d.baseline <==> d.scoreGain > m.config.switchMargin)
      && (d.selected != d.baseline ==> d.selected == d.best)
      && d.selectedPoseError == poseErrors[d.selected] && d.bestPoseError == poseErrors[d.best]
      && d.scoreGain == Score(m, poseErrors, d.nominal, d.baseline) - Score(m, poseErrors, d.nominal, d.best)
  {
    var d := Select(m, poseErrors, nominalPhase, previous).value;
    SelectionFollowsGain(m, poseErrors, nominalPhase, previous);
    FirstMinimumIsBest(m, poseErrors, d);
  }

  /** A phase at most `radius` from the nominal one, inside the reference, not before the previous
   *  phase and not further than `maxAdvance` after it. */
  predicate IsCandidate(m: Matcher, nominal: int, previous: Option<int>, k: int) {
    && 0 <= k <= (if m.config.horizonSteps == 1 then m.frames - 1 else m.frames - 2)
    && nominal - m.config.radius <= k <= nominal + m.config.radius
    && (previous.Some? ==> previous.value <= k <= previous.value + m.config.maxAdvance)
  }

  /** The candidates of a decision. */
  lemma CandidatesAreLeashed(m: Matcher, poseErrors: seq<real>, nominalPhase: int, previous: Option<int>)
    requires m.Valid() && |poseErrors| == m.frames && Select(m, poseErrors, nominalPhase, previous).Ok?
    ensures var d := Select(m, poseErrors, nominalPhase, previous).value;
      && d.previous == previous && 0 <= d.first <= d.last < |poseErrors|
      && d.first <= d.selected <= d.last && d.first <= d.best <= d.last && d.first <= d.baseline <= d.last
      && (forall k :: IsCandidate(m, d.nominal, previous, k) <==> d.first <= k <= d.last)
      && d.nominal <= nominalPhase
      && (d.nominal < nominalPhase ==>
            d.nominal == if m.config.horizonSteps == 1 then m.frames - 1 else m.frames - 2)
  {
    SelectionFollowsGain(m, poseErrors, nominalPhase, previous);
  }

  /** Near-optimality read off the fields: a phase costs its pose error and the anchor penalty
   *  times its squared distance from the nominal phase, and the selected candidate costs at most
   *  `switchMargin` more than any other. */
  ghost predicate CostsLittle(m: Matcher, poseErrors: seq<real>, d: PhaseDecision) {
    && 0 <= d.selected < |poseErrors|
    && forall k :: IsCandidate(m, d.nominal, d.previous, k) && k < |poseErrors| ==>
         poseErrors[d.selected]
         + m.config.anchorPenalty * ((d.selected - d.nominal) as real * (d.selected - d.nominal) as real)
         <= poseErrors[k] + m.config.anchorPenalty * ((k - d.nominal) as real * (k - d.nominal) as real)
            + m.config.switchMargin
  }

  /** The best candidate is the first of the cheapest. */
  ghost predicate CostsLeast(m: Matcher, poseErrors: seq<real>, d: PhaseDecision) {
    && 0 <= d.best < |poseErrors|
    && forall k :: IsCandidate(m, d.nominal, d.previous, k) && k < |poseErrors| ==>
         var saved :=
           poseErrors[k] + m.config.anchorPenalty * ((k - d.nominal) as real * (k - d.nominal) as real)
           - (poseErrors[d.best]
              + m.config.anchorPenalty * ((d.best - d.nominal) as real * (d.best - d.nominal) as real));
         saved >= 0.0 && (k < d.best ==> saved > 0.0)
  }

  /** The gain is what the baseline costs more than the best candidate. */
  ghost predicate GainsTheDifference(m: Matcher, poseErrors: seq<real>, d: PhaseDecision) {
    && 0 <= d.best < |poseErrors| && 0 <= d.baseline < |poseErrors|
    && d.scoreGain
       == poseErrors[d.baseline]
          + m.config.anchorPenalty * ((d.baseline - d.nominal) as real * (d.baseline - d.nominal) as real)
          - (poseErrors[d.best]
             + m.config.anchorPenalty * ((d.best - d.nominal) as real * (d.best - d.nominal) as real))
  }

  lemma ScoresDifferAsCosts(m: Matcher, poseErrors: seq<real>, nominal: int, a: int, b: int)
    requires 0 <= a < |poseErrors| && 0 <= b < |poseErrors|
    ensures Score(m, poseErrors, nominal, a) - Score(m, poseErrors, nominal, b)
      == poseErrors[a] + m.config.anchorPenalty * ((a - nominal) as real * (a - nominal) as real)
         - (poseErrors[b] + m.config.anchorPenalty * ((b - nominal) as real * (b - nominal) as real))
  {
  }

  lemma SelectedCostsLittle(m: Matcher, poseErrors: seq<real>, d: PhaseDecision)
    requires 0 <= d.first <= d.selected <= d.last < |poseErrors|
    requires forall k :: IsCandidate(m, d.nominal, d.previous, k) ==> d.first <= k <= d.last
    requires forall k :: d.first <= k <= d.last ==>
      Score(m, poseErrors, d.nominal, d.selected) <= Score(m, poseErrors, d.nominal, k) + m.config.switchMargin
    ensures CostsLittle(m, poseErrors, d)
  {
    var penalty := m.config.anchorPenalty;
    var x := poseErrors[d.selected] + penalty * ((d.selected - d.nominal) as real * (d.selected - d.nominal) as real);
    forall k | IsCandidate(m, d.nominal, d.previous, k) && k < |poseErrors|
      ensures x <= poseErrors[k] + penalty * ((k - d.nominal) as real * (k - d.nominal) as real)
                   + m.config.switchMargin
    {
      var y := poseErrors[k] + penalty * ((k - d.nominal) as real * (k - d.nominal) as real);
      ScoresDifferAsCosts(m, poseErrors, d.nominal, d.selected, k);
      assert Score(m, poseErrors, d.nominal, d.selected) - Score(m, poseErrors, d.nominal, k) == x - y;
      assert d.first <= k <= d.last;
      assert x <= y + m.config.switchMargin;
    }
  }

  lemma BestCostsLeast(m: Matcher, poseErrors: seq<real>, d: PhaseDecision)
    requires forall k :: IsCandidate(m, d.nominal, d.previous, k) ==> d.first <= k <= d.last
    requires IsBest(m, poseErrors, d)
    ensures CostsLeast(m, poseErrors, d)
  {
    forall k | IsCandidate(m, d.nominal, d.previous, k) && k < |poseErrors|
      ensures var saved :=
          poseErrors[k] + m.config.anchorPenalty * ((k - d.nominal) as real * (k - d.nominal) as real)
          - (poseErrors[d.best]
             + m.config.anchorPenalty * ((d.best - d.nominal) as real * (d.best - d.nominal) as real));
        saved >= 0.0 && (k < d.best ==> saved > 0.0)
    {
      var x := poseErrors[d.best]
        + m.config.anchorPenalty * ((d.best - d.nominal) as real * (d.best - d.nominal) as real);
      var y := poseErrors[k] + m.config.anchorPenalty * ((k - d.nominal) as real * (k - d.nominal) as real);
      ScoresDifferAsCosts(m, poseErrors, d.nominal, k, d.best);
      assert Score(m, poseErrors, d.nominal, k) - Score(m, poseErrors, d.nominal, d.best) == y - x;
      assert d.first <= k <= d.last;
      assert y - x >= 0.0 && (k < d.best ==> y - x > 0.0);
    }
  }

  lemma GainIsDifference(m: Matcher, poseErrors: seq<real>, d: PhaseDecision)
    requires 0 <= d.best < |poseErrors| && 0 <= d.baseline < |poseErrors|
    requires d.scoreGain == Score(m, poseErrors, d.nominal, d.baseline) - Score(m, poseErrors, d.nominal, d.best)
    ensures GainsTheDifference(m, poseErrors, d)
  {
    ScoresDifferAsCosts(m, poseErrors, d.nominal, d.baseline, d.best);
  }

  /** What the selected, the best and the baseline candidate cost. The baseline is the candidate
   *  closest to the nominal phase, and it is left only for a gain above the margin. */
  lemma SelectionCosts(m: Matcher, poseErrors: seq<real>, nominalPhase: int, previous: Option<int>)
    requires m.Valid() && |poseErrors| == m.frames && Select(m, poseErrors, nominalPhase, previous).Ok?
    ensures var d := Select(m, poseErrors, nominalPhase, previous).value;
      && CostsLittle(m, poseErrors, d) && CostsLeast(m, poseErrors, d) && GainsTheDifference(m, poseErrors, d)
      && d.selected == (if d.scoreGain > m.config.switchMargin then d.best else d.baseline)
      && (forall k :: IsCandidate(m, d.nominal, d.previous, k) ==>
            if k < d.nominal then k <= d.baseline <= d.nominal else d.nominal <= d.baseline <= k)
  {
    var d := Select(m, poseErrors, nominalPhase, previous).value;
    CandidatesAreLeashed(m, poseErrors, nominalPhase, previous);
    SelectionIsNearOptimal(m, poseErrors, nominalPhase, previous);
    BaselineIsClampedNominal(m, poseErrors, nominalPhase, previous);
    SelectedCostsLittle(m, poseErrors, d);
    BestCostsLeast(m, poseErrors, d);
    GainIsDifference(m, poseErrors, d);
  }

  /** Which calls are refused, and for what. */
  lemma RefusedCalls(m: Matcher, poseErrors: seq<real>, nominalPhase: int, previous: Option<int>)
    requires m.Valid() && |poseErrors| == m.frames
    ensures var last := if m.config.horizonSteps == 1 then m.frames - 1 else m.frames - 2;
      var r := Select(m, poseErrors, nominalPhase, previous);
      && (r == Err(NegativeNominal) <==> nominalPhase < 0)
      && (r == Err(InvalidPrevious) <==>
            nominalPhase >= 0 && previous.Some? && (previous.value < 0 || previous.value > last))
      && (r.Ok? ==> nominalPhase >= 0)
  {
  }

  /** The anchor penalty keeps the selection at the nominal phase although another candidate has
   *  the smaller pose error. */
  lemma AnchorPenaltyCounts()
    ensures var m := Matcher(Config(2, 1, 1.0, 0.0, 1), 4);
      var r := Select(m, [0.5, 0.5, 0.4, 0.5], 1, None);
      m.Valid() && r.Ok? && r.value.first == 0 && r.value.last == 2 && r.value.selected == r.value.best == 1
  {
    var m, errors := Matcher(Config(2, 1, 1.0, 0.0, 1), 4), [0.5, 0.5, 0.4, 0.5];
    OverlapErrorIff(m, errors, 1, None);
    SelectionIsNearOptimal(m, errors, 1, None);
    var d := Select(m, errors, 1, None).value;
    assert Score(m, errors, 1, 0) == 1.5 && Score(m, errors, 1, 1) == 0.5 && Score(m, errors, 1, 2) == 1.4;
  }

  /** The overlap error fires exactly when the leash around the clamped nominal phase and the
   *  continuity range after the previous selection do not meet. */
  lemma OverlapErrorIff(m: Matcher, poseErrors: seq<real>, nominalPhase: int, previous: Option<int>)
    requires m.Valid() && |poseErrors| == m.frames && nominalPhase >= 0
    requires previous.Some? ==> 0 <= previous.value <= m.LastStart()
    ensures Select(m, poseErrors, nominalPhase, previous) == Err(NoOverlap) <==>
      var nominal := Min(nominalPhase, m.LastStart());
      previous.Some? && (previous.value > nominal + m.config.radius
                         || previous.value + m.config.maxAdvance < nominal - m.config.radius)
  {
  }

  // ----- Runs -----------------------------------------------------------------------------

  /** One call of a run: the nominal phase asked for and the pose errors of the current state. */
  datatype Query = Query(nominal: int, poseErrors: seq<real>)

  /** Each selection is fed back as the previous phase of the next call. */
  function Run(m: Matcher, queries: seq<Query>): Result<seq<PhaseDecision>, MatchError>
    requires m.Valid() && forall i :: 0 <= i < |queries| ==> |queries[i].poseErrors| == m.frames
    ensures Run(m, queries).Ok? ==> |Run(m, queries).value| == |queries|
  {
    if queries == [] then Ok([])
    else
      var front, last := queries[..|queries| - 1], queries[|queries| - 1];
      match Run(m, front)
      case Err(e) => Err(e)
      case Ok(decisions) =>
        var previous := if decisions == [] then None else Some(decisions[|decisions| - 1].selected);
        match Select(m, last.poseErrors, last.nominal, previous)
        case Err(e) => Err(e)
        case Ok(d) => Ok(decisions + [d])
  }

  /** Nominal phase never decreases and advances by at most the continuity bound per call. */
  ghost predicate Paced(m: Matcher, queries: seq<Query>) {
    && (forall i :: 0 <= i < |queries| ==> |queries[i].poseErrors| == m.frames && queries[i].nominal >= 0)
    && (forall i :: 0 <= i < |queries| - 1 ==>
          queries[i].nominal <= queries[i + 1].nominal <= queries[i].nominal + m.config.maxAdvance)
  }

  ghost predicate Leashed(m: Matcher, query: Query, d: PhaseDecision) {
    var nominal := Min(query.nominal, m.LastStart());
    && d.nominal == nominal
    && 0 <= d.selected <= m.LastStart()
    && nominal - m.config.radius <= d.selected <= nominal + m.config.radius
  }

  lemma FirstCallIsFeasible(m: Matcher, query: Query)
    requires m.Valid() && |query.poseErrors| == m.frames && query.nominal >= 0
    ensures var r := Select(m, query.poseErrors, query.nominal, None); r.Ok? && Leashed(m, query, r.value)
  {
    OverlapErrorIff(m, query.poseErrors, query.nominal, None);
    SelectedIsCandidate(m, query.poseErrors, query.nominal, None);
  }

  lemma NextCallIsFeasible(m: Matcher, before: Query, d: PhaseDecision, query: Query)
    requires m.Valid() && |query.poseErrors| == m.frames && before.nominal >= 0 && Leashed(m, before, d)
    requires before.nominal <= query.nominal <= before.nominal + m.config.maxAdvance
    ensures var r := Select(m, query.poseErrors, query.nominal, Some(d.selected));
            r.Ok? && Leashed(m, query, r.value) && d.selected <= r.value.selected <= d.selected + m.config.maxAdvance
  {
    OverlapErrorIff(m, query.poseErrors, query.nominal, Some(d.selected));
    SelectedIsCandidate(m, query.poseErrors, query.nominal, Some(d.selected));
  }

  /** Every selection is on its leash, none goes back, none advances past the bound. */
  ghost predicate Tracks(m: Matcher, queries: seq<Query>, decisions: seq<PhaseDecision>) {
    && |decisions| == |queries|
    && (forall i :: 0 <= i < |queries| ==> Leashed(m, queries[i], decisions[i]))
    && (forall i :: 0 <= i < |queries| - 1 ==>
          decisions[i].selected <= decisions[i + 1].selected <= decisions[i].selected + m.config.maxAdvance)
  }

  lemma TracksExtends(m: Matcher, queries: seq<Query>, decisions: seq<PhaseDecision>, query: Query, d: PhaseDecision)
    requires Tracks(m, queries, decisions) && Leashed(m, query, d)
    requires queries != [] ==>
      decisions[|queries| - 1].selected <= d.selected <= decisions[|queries| - 1].selected + m.config.maxAdvance
    ensures Tracks(m, queries + [query], decisions + [d])
  {
  }

  ghost function Previous(decisions: seq<PhaseDecision>): Option<int> {
    if decisions == [] then None else Some(decisions[|decisions| - 1].selected)
  }

  lemma CallIsFeasible(m: Matcher, queries: seq<Query>, decisions: seq<PhaseDecision>)
    requires m.Valid() && Paced(m, queries) && queries != []
    requires Tracks(m, queries[..|queries| - 1], decisions)
    ensures var last := queries[|queries| - 1];
            var r := Select(m, last.poseErrors, last.nominal, Previous(decisions));
            r.Ok? && Tracks(m, queries, decisions + [r.value])
  {
    var front, last := queries[..|queries| - 1], queries[|queries| - 1];
    if front == [] {
      FirstCallIsFeasible(m, last);
    } else {
      var k := |front| - 1;
      assert front[k] == queries[k] && last == queries[k + 1];
      NextCallIsFeasible(m, queries[k], decisions[k], last);
    }
    TracksExtends(m, front, decisions, last, Select(m, last.poseErrors, last.nominal, Previous(decisions)).value);
    assert queries == front + [last];
  }

  /** No paced run of any length fails, and every selection stays on its leash. */
  lemma {:induction false} PacedRunsAreFeasible(m: Matcher, queries: seq<Query>)
    requires m.Valid() && Paced(m, queries)
    ensures Run(m, queries).Ok? && Tracks(m, queries, Run(m, queries).value)
  {
    if queries != [] {
      PacedRunsAreFeasible(m, queries[..|queries| - 1]);
      CallIsFeasible(m, queries, Run(m, queries[..|queries| - 1]).value);
    }
  }

  lemma {:induction false} TracksAdvance(m: Matcher, queries: seq<Query>, decisions: seq<PhaseDecision>, i: nat, k: nat)
    requires Tracks(m, queries, decisions) && i + k < |queries|
    ensures 0 <= decisions[i + k].selected - decisions[i].selected <= Times(k, m.config.maxAdvance)
    decreases k
  {
    if k > 0 {
      TracksAdvance(m, queries, decisions, i, k - 1);
      var j := i + (k - 1);
      assert decisions[j].selected <= decisions[j + 1].selected <= decisions[j].selected + m.config.maxAdvance;
    }
  }

  /** Over k calls the selection moves forward, by at most k times the bound. */
  lemma SelectionsAdvanceBoundedly(m: Matcher, queries: seq<Query>, i: nat, k: nat)
    requires m.Valid() && Paced(m, queries) && i + k < |queries|
    ensures Run(m, queries).Ok?
    ensures 0 <= Run(m, queries).value[i + k].selected - Run(m, queries).value[i].selected <= k * m.config.maxAdvance
  {
    PacedRunsAreFeasible(m, queries);
    TracksAdvance(m, queries, Run(m, queries).value, i, k);
    TimesIsProduct(k, m.config.maxAdvance);
  }

  // ----- Which nominal phases are safe -------------------------------------------------------

  /** The smallest selection a run over these nominal phases can end with. */
  function Low(m: Matcher, nominals: seq<int>): int
    requires nominals != []
  {
    var front, nominal := nominals[..|nominals| - 1], Min(nominals[|nominals| - 1], m.LastStart());
    var leash := Max(0, nominal - m.config.radius);
    if front == [] then leash else Max(Low(m, front), leash)
  }

  /** The largest one. */
  function High(m: Matcher, nominals: seq<int>): int
    requires nominals != []
  {
    var front, nominal := nominals[..|nominals| - 1], Min(nominals[|nominals| - 1], m.LastStart());
    var leash := Min(m.LastStart(), nominal + m.config.radius);
    if front == [] then leash else Min(High(m, front) + m.config.maxAdvance, leash)
  }

  predicate InReach(m: Matcher, nominals: seq<int>, selected: int)
    requires nominals != []
  {
    0 <= Low(m, nominals) <= selected <= High(m, nominals) <= m.LastStart()
  }

  /** Whatever was selected before, the leash of the next call can be met. */
  predicate LeashInReach(m: Matcher, nominals: seq<int>, next: int)
    requires nominals != []
  {
    var nominal := Min(next, m.LastStart());
    && High(m, nominals) <= nominal + m.config.radius
    && Low(m, nominals) + m.config.maxAdvance >= nominal - m.config.radius
  }

  /** Nominal phases after which no run can fail: a condition on the phases alone. */
  predicate Feasible(m: Matcher, nominals: seq<int>) {
    && (forall i :: 0 <= i < |nominals| ==> nominals[i] >= 0)
    && (forall i :: 0 < i < |nominals| ==> LeashInReach(m, nominals[..i], nominals[i]))
  }

  ghost predicate IsQuery(m: Matcher, nominal: int, query: Query) {
    && query.nominal == nominal && |query.poseErrors| == m.frames
    && forall k :: 0 <= k < m.frames ==> query.poseErrors[k] >= 0.0
  }

  /** A run over these nominal phases, with any non-negative pose errors. */
  ghost predicate Asks(m: Matcher, nominals: seq<int>, queries: seq<Query>) {
    |queries| == |nominals| && forall i :: 0 <= i < |queries| ==> IsQuery(m, nominals[i], queries[i])
  }

  lemma AskOneMore(m: Matcher, nominals: seq<int>, queries: seq<Query>, query: Query)
    requires Asks(m, nominals, queries) && IsQuery(m, query.nominal, query)
    ensures Asks(m, nominals + [query.nominal], queries + [query])
  {
  }

  lemma FeasibleFront(m: Matcher, nominals: seq<int>)
    requires Feasible(m, nominals) && nominals != []
    ensures Feasible(m, nominals[..|nominals| - 1])
  {
    var front := nominals[..|nominals| - 1];
    forall i | 0 < i < |front|
      ensures LeashInReach(m, front[..i], front[i])
    {
      assert front[..i] == nominals[..i];
    }
  }

  /** One call: the error and the selection, seen from the range of the previous selections. */
  lemma CallWithinReach(m: Matcher, nominals: seq<int>, query: Query, previous: int)
    requires m.Valid() && nominals != [] && |query.poseErrors| == m.frames && query.nominal >= 0
    requires InReach(m, nominals, previous) && LeashInReach(m, nominals, query.nominal)
    ensures var r := Select(m, query.poseErrors, query.nominal, Some(previous));
      r.Ok? && InReach(m, nominals + [query.nominal], r.value.selected)
  {
    assert (nominals + [query.nominal])[..|nominals|] == nominals;
    OverlapErrorIff(m, query.poseErrors, query.nominal, Some(previous));
    SelectedIsCandidate(m, query.poseErrors, query.nominal, Some(previous));
  }

  lemma FirstCallInReach(m: Matcher, query: Query)
    requires m.Valid() && |query.poseErrors| == m.frames && query.nominal >= 0
    ensures var r := Select(m, query.poseErrors, query.nominal, None);
      r.Ok? && InReach(m, [query.nominal], r.value.selected)
  {
    OverlapErrorIff(m, query.poseErrors, query.nominal, None);
    SelectedIsCandidate(m, query.poseErrors, query.nominal, None);
  }

  /** The last selection of a run over safe phases lies in their reach, whatever the errors. */
  ghost predicate EndsInReach(m: Matcher, nominals: seq<int>, result: Result<seq<PhaseDecision>, MatchError>) {
    && result.Ok? && |result.value| == |nominals|
    && (nominals != [] ==> InReach(m, nominals, result.value[|nominals| - 1].selected))
  }

  lemma RunExtends(m: Matcher, queries: seq<Query>, query: Query)
    requires m.Valid() && forall i :: 0 <= i < |queries| ==> |queries[i].poseErrors| == m.frames
    requires |query.poseErrors| == m.frames
    ensures Run(m, queries).Err? ==> Run(m, queries + [query]).Err?
    ensures Run(m, queries).Ok? ==>
      var r := Select(m, query.poseErrors, query.nominal, Previous(Run(m, queries).value));
      Run(m, queries + [query]) == if r.Ok? then Ok(Run(m, queries).value + [r.value]) else Err(r.error)
  {
    assert (queries + [query])[..|queries|] == queries;
  }

  lemma FeasibleCall(m: Matcher, front: seq<int>, query: Query, decisions: seq<PhaseDecision>)
    requires m.Valid() && Feasible(m, front + [query.nominal]) && |query.poseErrors| == m.frames
    requires EndsInReach(m, front, Ok(decisions))
    ensures var r := Select(m, query.poseErrors, query.nominal, Previous(decisions));
      r.Ok? && EndsInReach(m, front + [query.nominal], Ok(decisions + [r.value]))
  {
    var nominals := front + [query.nominal];
    assert nominals[|front|] >= 0;
    if front == [] {
      FirstCallInReach(m, query);
      assert nominals == [query.nominal];
    } else {
      assert LeashInReach(m, nominals[..|front|], nominals[|front|]);
      assert nominals[..|front|] == front;
      CallWithinReach(m, front, query, decisions[|front| - 1].selected);
    }
  }

  lemma {:induction false} FeasibleRuns(m: Matcher, nominals: seq<int>, queries: seq<Query>)
    requires m.Valid() && Feasible(m, nominals) && Asks(m, nominals, queries)
    ensures EndsInReach(m, nominals, Run(m, queries))
  {
    if nominals != [] {
      var front, before, last := nominals[..|nominals| - 1], queries[..|queries| - 1], queries[|queries| - 1];
      assert IsQuery(m, nominals[|nominals| - 1], last);
      assert nominals == front + [last.nominal] && queries == before + [last];
      FeasibleFront(m, nominals);
      FeasibleRuns(m, front, before);
      RunExtends(m, before, last);
      FeasibleCall(m, front, last, Run(m, before).value);
    }
  }

  /** A pose error no candidate can make up for. */
  function Peak(m: Matcher): real {
    m.config.anchorPenalty * (m.config.radius as real * m.config.radius as real) + m.config.switchMargin + 1.0
  }

  /** Pose errors that make one frame the only good one. */
  function Spike(m: Matcher, wanted: int): seq<real> {
    seq(m.frames, k => if k == wanted then 0.0 else Peak(m))
  }

  lemma SquareBound(penalty: real, offset: real, radius: real)
    requires penalty >= 0.0 && -radius <= offset <= radius
    ensures 0.0 <= penalty * (offset * offset) <= penalty * (radius * radius)
  {
    assert radius * radius - offset * offset == (radius - offset) * (radius + offset);
    assert (radius - offset) * (radius + offset) >= 0.0 && offset * offset >= 0.0;
    assert penalty * (radius * radius) - penalty * (offset * offset) == penalty * (radius * radius - offset * offset);
  }

  lemma SpikeScore(m: Matcher, nominal: int, wanted: int, candidate: int)
    requires m.Valid() && 0 <= candidate < m.frames
    requires nominal - m.config.radius <= candidate <= nominal + m.config.radius
    ensures var score := Score(m, Spike(m, wanted), nominal, candidate);
      if candidate == wanted then score <= Peak(m) - m.config.switchMargin - 1.0 else score >= Peak(m)
  {
    SquareBound(m.config.anchorPenalty, (candidate - nominal) as real, m.config.radius as real);
  }

  /** With such errors the wanted candidate is selected. */
  lemma SpikeSelects(m: Matcher, nominalPhase: int, previous: Option<int>, wanted: int)
    requires m.Valid() && Select(m, Spike(m, wanted), nominalPhase, previous).Ok?
    requires var nominal := Min(nominalPhase, m.LastStart());
      CandidateStart(m, nominal, previous) <= wanted <= CandidateStop(m, nominal, previous)
    ensures Select(m, Spike(m, wanted), nominalPhase, previous).value.selected == wanted
  {
    var d := Select(m, Spike(m, wanted), nominalPhase, previous).value;
    SelectionIsNearOptimal(m, Spike(m, wanted), nominalPhase, previous);
    SpikeScore(m, d.nominal, wanted, wanted);
    SpikeScore(m, d.nominal, wanted, d.selected);
  }

  function End(m: Matcher, nominals: seq<int>, high: bool): int
    requires nominals != []
  {
    if high then High(m, nominals) else Low(m, nominals)
  }

  /** A run that is pulled to one end of its reach at every call. */
  function Steered(m: Matcher, nominals: seq<int>, high: bool): seq<Query> {
    if nominals == [] then []
    else
      Steered(m, nominals[..|nominals| - 1], high)
      + [Query(nominals[|nominals| - 1], Spike(m, End(m, nominals, high)))]
  }

  lemma SpikeIsQuery(m: Matcher, nominal: int, wanted: int)
    requires m.Valid()
    ensures IsQuery(m, nominal, Query(nominal, Spike(m, wanted)))
  {
    SquareBound(m.config.anchorPenalty, 0.0, m.config.radius as real);
    assert Peak(m) >= 1.0;
    forall k | 0 <= k < m.frames
      ensures Spike(m, wanted)[k] >= 0.0
    {
    }
  }

  lemma {:induction false} SteeredAsks(m: Matcher, nominals: seq<int>, high: bool)
    requires m.Valid()
    ensures Asks(m, nominals, Steered(m, nominals, high))
  {
    if nominals != [] {
      var front, nominal := nominals[..|nominals| - 1], nominals[|nominals| - 1];
      SteeredAsks(m, front, high);
      SpikeIsQuery(m, nominal, End(m, nominals, high));
      AskOneMore(m, front, Steered(m, front, high), Query(nominal, Spike(m, End(m, nominals, high))));
      assert nominals == front + [nominal];
    }
  }

  lemma EndIsCandidate(m: Matcher, front: seq<int>, nominal: int, high: bool)
    requires m.Valid() && front != [] && nominal >= 0 && LeashInReach(m, front, nominal)
    requires InReach(m, front, End(m, front, high))
    ensures var clamped := Min(nominal, m.LastStart());
      var previous := Some(End(m, front, high));
      CandidateStart(m, clamped, previous) <= End(m, front + [nominal], high) <= CandidateStop(m, clamped, previous)
  {
    assert (front + [nominal])[..|front|] == front;
  }

  /** From one end of the reach a spike pulls the next selection to the same end. */
  lemma SteeredCall(m: Matcher, front: seq<int>, nominal: int, high: bool)
    requires m.Valid() && nominal >= 0
    requires front != [] ==> LeashInReach(m, front, nominal) && InReach(m, front, End(m, front, high))
    ensures var end := End(m, front + [nominal], high);
      var r := Select(m, Spike(m, end), nominal, if front == [] then None else Some(End(m, front, high)));
      r.Ok? && r.value.selected == end
  {
    var end := End(m, front + [nominal], high);
    var query := Query(nominal, Spike(m, end));
    if front == [] {
      assert front + [nominal] == [nominal];
      FirstCallInReach(m, query);
      SpikeSelects(m, nominal, None, end);
    } else {
      CallWithinReach(m, front, query, End(m, front, high));
      EndIsCandidate(m, front, nominal, high);
      SpikeSelects(m, nominal, Some(End(m, front, high)), end);
    }
  }

  /** The run stands at the wanted end of its reach. */
  ghost predicate AtEnd(m: Matcher, nominals: seq<int>, high: bool, result: Result<seq<PhaseDecision>, MatchError>) {
    && EndsInReach(m, nominals, result)
    && (nominals != [] ==> result.value[|nominals| - 1].selected == End(m, nominals, high))
  }

  lemma SteeredStep(m: Matcher, front: seq<int>, nominal: int, high: bool, decisions: seq<PhaseDecision>)
    requires m.Valid() && Feasible(m, front + [nominal]) && AtEnd(m, front, high, Ok(decisions))
    ensures var query := Query(nominal, Spike(m, End(m, front + [nominal], high)));
      var r := Select(m, query.poseErrors, nominal, Previous(decisions));
      r.Ok? && AtEnd(m, front + [nominal], high, Ok(decisions + [r.value]))
  {
    var nominals := front + [nominal];
    assert nominals[|front|] >= 0;
    if front != [] {
      assert LeashInReach(m, nominals[..|front|], nominals[|front|]);
      assert nominals[..|front|] == front;
    }
    FeasibleCall(m, front, Query(nominal, Spike(m, End(m, nominals, high))), decisions);
    SteeredCall(m, front, nominal, high);
  }

  lemma {:induction false} SteeredReachesEnd(m: Matcher, nominals: seq<int>, high: bool)
    requires m.Valid() && Feasible(m, nominals) && Asks(m, nominals, Steered(m, nominals, high))
    ensures AtEnd(m, nominals, high, Run(m, Steered(m, nominals, high)))
  {
    if nominals != [] {
      var front, nominal := nominals[..|nominals| - 1], nominals[|nominals| - 1];
      var before := Steered(m, front, high);
      SteeredAsks(m, front, high);
      FeasibleFront(m, nominals);
      SteeredReachesEnd(m, front, high);
      assert nominals == front + [nominal];
      SteeredStep(m, front, nominal, high, Run(m, before).value);
      RunExtends(m, before, Query(nominal, Spike(m, End(m, nominals, high))));
    }
  }

  function Flat(m: Matcher): seq<real> {
    seq(m.frames, _ => 0.0)
  }

  /** Phases that are safe up to the last one, which is not. */
  lemma UnsafeCallFails(m: Matcher, front: seq<int>, nominal: int) returns (queries: seq<Query>)
    requires m.Valid() && Feasible(m, front) && !Feasible(m, front + [nominal])
    ensures Asks(m, front + [nominal], queries) && Run(m, queries).Err?
  {
    var last := Query(nominal, Flat(m));
    var high := front != [] && High(m, front) > Min(nominal, m.LastStart()) + m.config.radius;
    var before := Steered(m, front, high);
    SteeredAsks(m, front, high);
    SteeredReachesEnd(m, front, high);
    RunExtends(m, before, last);
    AskOneMore(m, front, before, last);
    queries := before + [last];
    if nominal >= 0 {
      SafeOneMore(m, front, nominal);
      OverlapErrorIff(m, last.poseErrors, nominal, Some(End(m, front, high)));
    }
  }

  lemma SafeOneMore(m: Matcher, front: seq<int>, nominal: int)
    requires Feasible(m, front) && nominal >= 0
    ensures Feasible(m, front + [nominal]) <==> front == [] || LeashInReach(m, front, nominal)
  {
    var nominals := front + [nominal];
    assert nominals[..|front|] == front;
    assert forall i :: 0 < i < |front| ==> nominals[..i] == front[..i];
    if Feasible(m, nominals) && front != [] {
      assert LeashInReach(m, nominals[..|front|], nominals[|front|]);
    }
  }

  lemma {:induction false} UnsafeRunFails(m: Matcher, nominals: seq<int>) returns (queries: seq<Query>)
    requires m.Valid() && !Feasible(m, nominals)
    ensures Asks(m, nominals, queries) && Run(m, queries).Err?
  {
    var front, nominal := nominals[..|nominals| - 1], nominals[|nominals| - 1];
    assert nominals == front + [nominal];
    if Feasible(m, front) {
      queries := UnsafeCallFails(m, front, nominal);
    } else {
      var before := UnsafeRunFails(m, front);
      RunExtends(m, before, Query(nominal, Flat(m)));
      AskOneMore(m, front, before, Query(nominal, Flat(m)));
      queries := before + [Query(nominal, Flat(m))];
    }
  }

  /** No run over given nominal phases fails, whatever the pose errors, exactly when the phases
   *  are feasible. */
  lemma FeasibleIff(m: Matcher, nominals: seq<int>)
    requires m.Valid()
    ensures Feasible(m, nominals)
      <==> forall queries :: Asks(m, nominals, queries) ==> Run(m, queries).Ok?
  {
    if Feasible(m, nominals) {
      forall queries | Asks(m, nominals, queries)
        ensures Run(m, queries).Ok?
      {
        FeasibleRuns(m, nominals, queries);
      }
    } else {
      var queries := UnsafeRunFails(m, nominals);
    }
  }

  /** Phases that never decrease and advance by at most the bound are feasible. */
  lemma PacedPhasesAreFeasible(m: Matcher, nominals: seq<int>)
    requires m.Valid() && forall i :: 0 <= i < |nominals| ==> nominals[i] >= 0
    requires forall i :: 0 <= i < |nominals| - 1 ==>
      nominals[i] <= nominals[i + 1] <= nominals[i] + m.config.maxAdvance
    ensures Feasible(m, nominals)
  {
    forall queries | Asks(m, nominals, queries)
      ensures Run(m, queries).Ok?
    {
      assert forall i :: 0 <= i < |queries| ==> IsQuery(m, nominals[i], queries[i]);
      assert Paced(m, queries);
      PacedRunsAreFeasible(m, queries);
    }
    FeasibleIff(m, nominals);
  }

  /** Pacing matters: one nominal step past the bound can leave no candidate. */
  lemma UnpacedRunFails()
    ensures var m := Matcher(Config(2, 0, 0.0, 0.0, 1), 5);
            var errors := [0.0, 0.0, 0.0, 0.0, 0.0];
            m.Valid() && Run(m, [Query(0, errors), Query(2, errors)]) == Err(NoOverlap)
  {
    var m := Matcher(Config(2, 0, 0.0, 0.0, 1), 5);
    var errors := [0.0, 0.0, 0.0, 0.0, 0.0];
    var queries := [Query(0, errors), Query(2, errors)];
    assert queries[..1] == [Query(0, errors)] && [Query(0, errors)][..0] == [];
    OverlapErrorIff(m, errors, 0, None);
    SelectedIsCandidate(m, errors, 0, None);
    assert Run(m, []) == Ok([]);
    assert Run(m, [Query(0, errors)]).Ok? && Run(m, [Query(0, errors)]).value[0].selected == 0;
    OverlapErrorIff(m, errors, 2, Some(0));
  }

  /** Pacing is sufficient, not necessary: these phases jump by two and are safe. */
  lemma UnpacedRunCanBeSafe()
    ensures var m := Matcher(Config(2, 1, 0.0, 0.0, 1), 5); m.Valid() && Feasible(m, [0, 2])
  {
    var m, nominals := Matcher(Config(2, 1, 0.0, 0.0, 1), 5), [0, 2];
    assert nominals[..1] == [0] && [0][..0] == [];
    assert Low(m, [0]) == 0 && High(m, [0]) == 1;
  }
}
