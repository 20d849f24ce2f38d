/** What the validator accepts and reports, read off the fields of a program: no table, no
 *  adjacency and no walk over nodes, only the entries, the rules and chains of rules. */
module AcceptedPrograms {
  import opened Wrappers
  import opened Digraph
  import opened OracleProgram
  import opened ProgramWalks

  // ----- Acceptance -------------------------------------------------------------------------

  /** A letter or digit, by its code. */
  predicate IsPlain(c: char) {
    48 <= c as int <= 57 || 65 <= c as int <= 90 || 97 <= c as int <= 122
  }

  ghost predicate IsStable(s: string) {
    && 0 < |s| < 257
    && forall i :: 0 <= i < |s| ==> IsPlain(s[i]) || (i > 0 && s[i] in {'_', '.', ':', '/', '-'})
  }

  ghost predicate SoundHeader(p: Program) {
    && IsStable(p.programId) && p.referenceFrames.Some? && p.modes != []
    && 0 < p.horizonSteps < 257 && 0 < p.maxQueries < 10_000_001
  }

  ghost predicate SoundModes(p: Program) {
    && (forall i, j :: 0 <= i < j < |p.modes| ==> p.modes[i].name != p.modes[j].name)
    && (forall i, j :: 0 <= i < j < |p.signals| ==> p.signals[i].name != p.signals[j].name)
    && (exists i :: 0 <= i < |p.modes| && p.modes[i].name == p.entry && p.modes[i].kind.Task?)
    && (exists i :: 0 <= i < |p.modes| && p.modes[i].kind.Terminal?)
    && forall i :: 0 <= i < |p.modes| ==>
      && p.referenceFrames.Some? && p.modes[i].stop <= p.referenceFrames.value
      && p.modes[i].maxDwell.Some? == (p.modes[i].kind.Task? || p.modes[i].kind.Recovery?)
      && (p.modes[i].kind.Terminal?
          <==> forall k :: 0 <= k < |p.transitions| ==> p.transitions[k].from != p.modes[i].name)
  }

  /** The rule joins these two different modes as their kinds and the first one's dwell allow. */
  predicate MayJoin(rule: TransitionRule, source: ModeSpec, target: ModeSpec) {
    && rule.from == source.name && rule.to == target.name && source.name != target.name
    && (source.maxDwell.Some? ==> rule.minDwell <= source.maxDwell.value)
    && match rule.kind
       case Advance => !source.kind.Recovery? && !target.kind.Recovery?
       case Recovery => !source.kind.Recovery? && target.kind.Recovery?
       case Rejoin => source.kind.Recovery? && target.kind.Task?
  }

  ghost predicate SoundRule(p: Program, rule: TransitionRule) {
    && (exists i :: 0 <= i < |p.signals| && p.signals[i].name == rule.guard.signal)
    && (rule.phaseTransfer.NormalizedPhase? ==>
          exists i :: 0 <= i < |p.signals| && p.signals[i] == SignalSpec(rule.phaseTransfer.signal, "1"))
    && exists a, b :: 0 <= a < |p.modes| && 0 <= b < |p.modes| && MayJoin(rule, p.modes[a], p.modes[b])
  }

  ghost predicate SoundRules(p: Program) {
    && (forall k :: 0 <= k < |p.transitions| ==> SoundRule(p, p.transitions[k]))
    && forall j, k :: 0 <= j < k < |p.transitions| ==>
      && p.transitions[j].id != p.transitions[k].id
      && (p.transitions[j].from, p.transitions[j].priority) != (p.transitions[k].from, p.transitions[k].priority)
  }

  /** A chain of rules leads from one mode to the other. */
  ghost predicate Leads(p: Program, from: Node, rules: seq<TransitionRule>, to: Node) {
    IsRuleWalk(p, from, rules) && EndOf(from, rules) == to
  }

  ghost predicate TakesNoTime(rules: seq<TransitionRule>) {
    forall i :: 0 <= i < |rules| ==> rules[i].minDwell == 0
  }

  ghost predicate CanEnd(p: Program, from: Node) {
    exists rules, t :: 0 <= t < |p.modes| && p.modes[t].kind.Terminal? && Leads(p, from, rules, p.modes[t].name)
  }

  ghost predicate CanBeEntered(p: Program, to: Node) {
    exists rules :: Leads(p, p.entry, rules, to)
  }

  ghost predicate SoundChains(p: Program) {
    && (forall from, rules :: Leads(p, from, rules, from) && TakesNoTime(rules) ==> rules == [])
    && forall i :: 0 <= i < |p.modes| ==> CanBeEntered(p, p.modes[i].name) && CanEnd(p, p.modes[i].name)
  }

  lemma IdentifierIff(s: string)
    ensures IsIdentifier(s) <==> IsStable(s)
  {
    assert IsIdentifier(s) && s != "" ==> IsAlphanumeric(s[0]);
  }

  lemma HeaderIff(p: Program)
    ensures WellFormedHeader(p) <==> SoundHeader(p)
  {
    IdentifierIff(p.programId);
  }

  lemma RuleIff(p: Program, rule: TransitionRule)
    requires DistinctModeNames(p)
    ensures WellFormedRule(p, rule) <==> SoundRule(p, rule)
  {
    if WellFormedRule(p, rule) {
      WellFormedIsSound(p, rule);
    }
    if SoundRule(p, rule) {
      SoundIsWellFormed(p, rule);
    }
  }

  lemma ModeDecides(p: Program, a: nat)
    requires DistinctModeNames(p) && a < |p.modes|
    ensures p.modes[a].name in Names(p)
    ensures forall kind :: IsMode(p, p.modes[a].name, kind) <==> p.modes[a].kind == kind
  {
  }

  lemma WellFormedIsSound(p: Program, rule: TransitionRule)
    requires DistinctModeNames(p) && WellFormedRule(p, rule)
    ensures SoundRule(p, rule)
  {
    var a :| 0 <= a < |p.modes| && p.modes[a].name == rule.from
             && (p.modes[a].maxDwell.Some? ==> rule.minDwell <= p.modes[a].maxDwell.value);
    var b :| 0 <= b < |p.modes| && p.modes[b].name == rule.to;
    ModeDecides(p, a);
    ModeDecides(p, b);
    assert MayJoin(rule, p.modes[a], p.modes[b]);
    if rule.phaseTransfer.NormalizedPhase? {
      var i :| 0 <= i < |p.signals| && p.signals[i].name == rule.phaseTransfer.signal
               && p.signals[i].unit == DIMENSIONLESS;
      assert p.signals[i] == SignalSpec(rule.phaseTransfer.signal, "1");
    }
  }

  lemma SoundIsWellFormed(p: Program, rule: TransitionRule)
    requires DistinctModeNames(p) && SoundRule(p, rule)
    ensures WellFormedRule(p, rule)
  {
    var a, b :| 0 <= a < |p.modes| && 0 <= b < |p.modes| && MayJoin(rule, p.modes[a], p.modes[b]);
    ModeDecides(p, a);
    ModeDecides(p, b);
    if rule.phaseTransfer.NormalizedPhase? {
      var i :| 0 <= i < |p.signals| && p.signals[i] == SignalSpec(rule.phaseTransfer.signal, "1");
      assert p.signals[i].name == rule.phaseTransfer.signal && p.signals[i].unit == DIMENSIONLESS;
    }
  }

  lemma RulesIff(p: Program)
    requires DistinctModeNames(p)
    ensures WellFormedRules(p) <==> SoundRules(p)
  {
    forall k | 0 <= k < |p.transitions|
      ensures WellFormedRule(p, p.transitions[k]) <==> SoundRule(p, p.transitions[k])
    {
      RuleIff(p, p.transitions[k]);
    }
  }

  lemma ModesIff(p: Program)
    requires WellFormedHeader(p) && forall k :: 0 <= k < |p.transitions| ==> IsEdge(p, p.transitions[k])
    ensures WellFormedModes(p) <==> SoundModes(p)
  {
    forall i | 0 <= i < |p.modes|
      ensures HasOutgoing(p, p.modes[i].name)
        <==> !forall k :: 0 <= k < |p.transitions| ==> p.transitions[k].from != p.modes[i].name
    {
      if !(forall k :: 0 <= k < |p.transitions| ==> p.transitions[k].from != p.modes[i].name) {
        var k :| 0 <= k < |p.transitions| && p.transitions[k].from == p.modes[i].name;
        assert IsEdge(p, p.transitions[k]);
      }
    }
    assert p.referenceFrames.Some?;
  }

  // ----- Chains of rules and walks over nodes -------------------------------------------------

  /** A chain of rules between known modes is a walk. */
  lemma ChainIsWalk(p: Program, from: Node, rules: seq<TransitionRule>, zeroDwellOnly: bool)
    requires WellFormedRules(p) && from in Names(p) && IsRuleWalk(p, from, rules)
    requires zeroDwellOnly ==> TakesNoTime(rules)
    ensures IsWalkBetween(EdgesUpTo(p, |p.transitions|, zeroDwellOnly), Visited(from, rules), from, EndOf(from, rules))
  {
    var edges := EdgesUpTo(p, |p.transitions|, zeroDwellOnly);
    var w := Visited(from, rules);
    forall i | 0 <= i < |w| - 1
      ensures w[i + 1] in Targets(edges, w[i])
    {
      RuleIsWellFormed(p, rules[i]);
      assert w[i] == rules[i].from && w[i + 1] == rules[i].to;
      assert EdgeBetween(p, |p.transitions|, zeroDwellOnly, w[i], w[i + 1]);
    }
  }

  /** Every walk is made by a chain of rules. */
  lemma {:induction false} WalkIsChain(p: Program, w: seq<Node>, zeroDwellOnly: bool)
    returns (rules: seq<TransitionRule>)
    requires IsWalk(EdgesUpTo(p, |p.transitions|, zeroDwellOnly), w)
    ensures Leads(p, w[0], rules, w[|w| - 1]) && |rules| == |w| - 1
    ensures zeroDwellOnly ==> TakesNoTime(rules)
  {
    rules := [];
    if |w| > 1 {
      var edges := EdgesUpTo(p, |p.transitions|, zeroDwellOnly);
      var front := w[..|w| - 1];
      forall i | 0 <= i < |front| - 1
        ensures front[i + 1] in Targets(edges, front[i])
      {
        assert w[i + 1] in Targets(edges, w[i]);
      }
      var before := WalkIsChain(p, front, zeroDwellOnly);
      var from, to := w[|w| - 2], w[|w| - 1];
      assert w[|w| - 2 + 1] in Targets(edges, from);
      assert EdgeBetween(p, |p.transitions|, zeroDwellOnly, from, to);
      var k :| 0 <= k < |p.transitions| && p.transitions[k].from == from && p.transitions[k].to == to
               && (zeroDwellOnly ==> p.transitions[k].minDwell == 0);
      rules := before + [p.transitions[k]];
    }
  }

  lemma JoinedIff(p: Program, from: Node, to: Node)
    requires WellFormedRules(p) && from in Names(p)
    ensures Joined(Edges(p), from, to) <==> exists rules :: Leads(p, from, rules, to)
  {
    if Joined(Edges(p), from, to) {
      var w :| IsWalkBetween(Edges(p), w, from, to);
      var rules := WalkIsChain(p, w, false);
      assert Leads(p, from, rules, to);
    }
    if rules :| Leads(p, from, rules, to) {
      ChainIsWalk(p, from, rules, false);
    }
  }

  lemma CyclesIff(p: Program)
    requires WellFormedRules(p)
    ensures HasCycle(ZeroDwellEdges(p))
      <==> exists from, rules :: Leads(p, from, rules, from) && TakesNoTime(rules) && rules != []
  {
    if HasCycle(ZeroDwellEdges(p)) {
      var w :| IsClosedWalk(ZeroDwellEdges(p), w);
      var rules := WalkIsChain(p, w, true);
      assert Leads(p, w[0], rules, w[0]);
    }
    if from, rules :| Leads(p, from, rules, from) && TakesNoTime(rules) && rules != [] {
      RuleIsWellFormed(p, rules[0]);
      ChainIsWalk(p, from, rules, true);
      assert IsClosedWalk(ZeroDwellEdges(p), Visited(from, rules));
    }
  }

  lemma EndsIff(p: Program, from: Node)
    requires WellFormedRules(p) && from in Names(p)
    ensures (exists t :: IsMode(p, t, ModeKind.Terminal) && Joined(Edges(p), from, t)) <==> CanEnd(p, from)
  {
    if name :| IsMode(p, name, ModeKind.Terminal) && Joined(Edges(p), from, name) {
      JoinedIff(p, from, name);
      var t :| 0 <= t < |p.modes| && p.modes[t].name == name && p.modes[t].kind.Terminal?;
      var rules :| Leads(p, from, rules, name);
      assert Leads(p, from, rules, p.modes[t].name);
    }
    if rules, t :| 0 <= t < |p.modes| && p.modes[t].kind.Terminal? && Leads(p, from, rules, p.modes[t].name) {
      JoinedIff(p, from, p.modes[t].name);
      assert IsMode(p, p.modes[t].name, ModeKind.Terminal);
    }
  }

  lemma PathsAreChains(p: Program)
    requires WellFormedRules(p) && p.entry in Names(p) && WellFormedPaths(p)
    ensures SoundChains(p)
  {
    CyclesIff(p);
    forall i | 0 <= i < |p.modes|
      ensures CanBeEntered(p, p.modes[i].name) && CanEnd(p, p.modes[i].name)
    {
      var n := p.modes[i].name;
      assert n in Names(p);
      JoinedIff(p, p.entry, n);
      EndsIff(p, n);
    }
  }

  lemma ChainsArePaths(p: Program)
    requires WellFormedRules(p) && p.entry in Names(p) && SoundChains(p)
    ensures WellFormedPaths(p)
  {
    CyclesIff(p);
    forall n | n in Names(p)
      ensures Joined(Edges(p), p.entry, n)
      ensures exists t :: IsMode(p, t, ModeKind.Terminal) && Joined(Edges(p), n, t)
    {
      var i :| 0 <= i < |p.modes| && p.modes[i].name == n;
      assert CanBeEntered(p, p.modes[i].name) && CanEnd(p, p.modes[i].name);
      JoinedIff(p, p.entry, n);
      EndsIff(p, n);
    }
  }

  /** A program is accepted exactly if its fields say so. */
  lemma AcceptedIff(p: Program)
    ensures WellFormed(p) <==> SoundHeader(p) && SoundModes(p) && SoundRules(p) && SoundChains(p)
  {
    HeaderIff(p);
    if SoundHeader(p) && DistinctModeNames(p) {
      RulesIff(p);
      if WellFormedRules(p) {
        ModesIff(p);
        if WellFormedModes(p) {
          if WellFormedPaths(p) {
            PathsAreChains(p);
            RecoveryEdgesFollow(p);
          }
          if SoundChains(p) {
            ChainsArePaths(p);
          }
        }
      }
    }
  }

  // ----- Reports ------------------------------------------------------------------------------

  /** Names that are and are not identifiers. */
  lemma IdentifierExamples()
    ensures IsIdentifier("Walk2:run/left_foot.v-1") && IsIdentifier("0")
    ensures !IsIdentifier("") && !IsIdentifier("-a") && !IsIdentifier("a b") && !IsIdentifier("_")
  {
    assert "a b"[1] == ' ';
  }

  /** When each fault of the header is reported. */
  lemma HeaderReports(p: Program)
    ensures Violates(p, InHeader(BadProgramId)) <==> !IsStable(p.programId)
    ensures Violates(p, InHeader(BadReference)) <==> p.referenceFrames == None
    ensures Violates(p, InHeader(BadHorizon)) <==> p.horizonSteps < 1 || p.horizonSteps > 256
    ensures Violates(p, InHeader(BadMaxQueries)) <==> p.maxQueries < 1 || p.maxQueries > 10_000_000
    ensures Violates(p, InHeader(NoModes)) <==> |p.modes| == 0
  {
    IdentifierIff(p.programId);
  }

  /** A span is reported for exactly the names of modes that end after the last reference frame;
   *  without a reference that is every mode with a frame in its span. */
  lemma SpanReports(p: Program, name: Node)
    ensures Violates(p, InMode(name, SpanExceedsReference)) <==>
      exists i :: 0 <= i < |p.modes| && p.modes[i].name == name
                  && match p.referenceFrames
                     case Some(frames) => p.modes[i].stop > frames
                     case None => p.modes[i].stop > 0
  {
  }

  /** The position of the first mode of a name, and of the last signal of one. */
  ghost predicate IsFirstMode(p: Program, name: Node, a: nat) {
    a < |p.modes| && p.modes[a].name == name && forall i :: 0 <= i < a ==> p.modes[i].name != name
  }

  ghost predicate IsLastSignal(p: Program, name: string, a: nat) {
    a < |p.signals| && p.signals[a].name == name && forall i :: a < i < |p.signals| ==> p.signals[i].name != name
  }

  ghost predicate IsLastMode(p: Program, name: Node, a: nat) {
    a < |p.modes| && p.modes[a].name == name && forall i :: a < i < |p.modes| ==> p.modes[i].name != name
  }

  lemma {:induction false} FirstModeAt(modes: seq<ModeSpec>, name: Node) returns (a: nat)
    requires exists i :: 0 <= i < |modes| && modes[i].name == name
    ensures a < |modes| && modes[a].name == name && forall i :: 0 <= i < a ==> modes[i].name != name
    ensures FirstMode(modes, name) == Some(modes[a])
  {
    a := 0;
    if modes[0].name != name {
      assert modes == [modes[0]] + modes[1..];
      var rest := FirstModeAt(modes[1..], name);
      a := rest + 1;
    }
  }

  lemma {:induction false} LastUnit(signals: seq<SignalSpec>, a: nat)
    requires a < |signals| && forall i :: a < i < |signals| ==> signals[i].name != signals[a].name
    ensures signals[a].name in LastSignalUnits(signals)
    ensures LastSignalUnits(signals)[signals[a].name] == signals[a].unit
  {
    if a < |signals| - 1 {
      LastUnit(signals[..|signals| - 1], a);
    }
  }

  lemma {:induction false} LastKind(modes: seq<ModeSpec>, a: nat)
    requires a < |modes| && forall i :: a < i < |modes| ==> modes[i].name != modes[a].name
    ensures modes[a].name in LastModeKinds(modes) && LastModeKinds(modes)[modes[a].name] == modes[a].kind
  {
    if a < |modes| - 1 {
      LastKind(modes[..|modes| - 1], a);
    }
  }

  /** The dwell check looks at the first mode of the source's name, even if others carry it. */
  lemma DwellReports(p: Program, k: nat, a: nat)
    requires k < |p.transitions| && IsFirstMode(p, p.transitions[k].from, a)
    requires p.transitions[k].to in Names(p)
    ensures Violates(p, InRule(k, MinDwellExceedsMax)) <==>
      p.modes[a].maxDwell.Some? && p.transitions[k].minDwell > p.modes[a].maxDwell.value
  {
    var rule := p.transitions[k];
    assert rule.from in Names(p);
    var first := FirstModeAt(p.modes, rule.from);
  }

  /** The unit check looks at the last signal of the phase's name. */
  lemma UnitReports(p: Program, k: nat, s: nat)
    requires k < |p.transitions| && p.modes != [] && p.transitions[k].phaseTransfer.NormalizedPhase?
    requires IsLastSignal(p, p.transitions[k].phaseTransfer.signal, s)
    ensures Violates(p, InRule(k, PhaseSignalNotDimensionless)) <==> p.signals[s].unit != "1"
  {
    LastUnit(p.signals, s);
  }

  lemma LastModeDecides(p: Program, name: Node, a: nat)
    requires IsLastMode(p, name, a)
    ensures name in Names(p) && forall kind :: HasKind(p, name, kind) <==> p.modes[a].kind == kind
  {
    LastKind(p.modes, a);
  }

  /** The kind checks look at the last modes of the two names. */
  lemma KindReports(p: Program, k: nat, from: nat, to: nat)
    requires k < |p.transitions|
    requires IsLastMode(p, p.transitions[k].from, from) && IsLastMode(p, p.transitions[k].to, to)
    ensures var rule := p.transitions[k];
      && (Violates(p, InRule(k, EntersRecoveryByOtherEdge)) <==> p.modes[to].kind.Recovery? && !rule.kind.Recovery?)
      && (Violates(p, InRule(k, RecoveryEdgeElsewhere)) <==> !p.modes[to].kind.Recovery? && rule.kind.Recovery?)
      && (Violates(p, InRule(k, LeavesRecoveryByOtherEdge)) <==> p.modes[from].kind.Recovery? && !rule.kind.Rejoin?)
      && (Violates(p, InRule(k, RejoinsOtherThanTask)) <==> p.modes[from].kind.Recovery? && !p.modes[to].kind.Task?)
      && (Violates(p, InRule(k, RejoinEdgeElsewhere)) <==> !p.modes[from].kind.Recovery? && rule.kind.Rejoin?)
  {
    var rule := p.transitions[k];
    LastModeDecides(p, rule.from, from);
    LastModeDecides(p, rule.to, to);
  }
}
