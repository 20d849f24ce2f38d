/** `validate_program`: its loops, proved to report exactly the violations of a program. */
module ProgramValidator {
  import opened Wrappers
  import opened Digraph
  import opened OracleProgram
  import ReferenceWindows

  /** One conditional append of the validator. */
  method Report<T(!new)>(errors: seq<T>, condition: bool, x: T) returns (reported: seq<T>)
    ensures forall y :: y in reported <==> y in errors || (condition && y == x)
  {
    reported := if condition then errors + [x] else errors;
  }

  method HeaderErrors(p: Program) returns (errors: seq<Violation>)
    ensures forall v :: v in errors <==> v.InHeader? && HeaderViolates(p, v.header)
  {
    errors := Report([], !IsIdentifier(p.programId), InHeader(BadProgramId));
    errors := Report(errors, p.referenceFrames.None?, InHeader(BadReference));
    errors := Report(errors, !(1 <= p.horizonSteps <= ReferenceWindows.MAX_HORIZON_STEPS), InHeader(BadHorizon));
    errors := Report(errors, !(1 <= p.maxQueries <= MAX_QUERIES), InHeader(BadMaxQueries));
    errors := Report(errors, p.modes == [], InHeader(NoModes));
  }

  method SignalTable(p: Program) returns (names: set<string>, units: map<string, string>, distinct: bool)
    ensures names == SignalNames(p) && units == LastSignalUnits(p.signals)
    ensures distinct <==> DistinctSignalNames(p)
  {
    names, units, distinct := {}, map[], true;
    for i := 0 to |p.signals|
      invariant names == set j | 0 <= j < i :: p.signals[j].name
      invariant units == LastSignalUnits(p.signals[..i])
      invariant distinct <==> forall j, k :: 0 <= j < k < i ==> p.signals[j].name != p.signals[k].name
    {
      assert p.signals[..i + 1][..i] == p.signals[..i];
      assert LastSignalUnits(p.signals[..i + 1])
          == LastSignalUnits(p.signals[..i])[p.signals[i].name := p.signals[i].unit];
      distinct := distinct && p.signals[i].name !in names;
      names := names + {p.signals[i].name};
      units := units[p.signals[i].name := p.signals[i].unit];
    }
    assert p.signals[..|p.signals|] == p.signals;
  }

  method ModeTable(p: Program) returns (names: set<Node>, kinds: map<Node, ModeKind>, distinct: bool)
    ensures names == Names(p) && kinds == Kinds(p)
    ensures distinct <==> DistinctModeNames(p)
  {
    names, kinds, distinct := {}, map[], true;
    for i := 0 to |p.modes|
      invariant names == set j | 0 <= j < i :: p.modes[j].name
      invariant kinds == LastModeKinds(p.modes[..i])
      invariant distinct <==> forall j, k :: 0 <= j < k < i ==> p.modes[j].name != p.modes[k].name
    {
      assert p.modes[..i + 1][..i] == p.modes[..i];
      assert LastModeKinds(p.modes[..i + 1]) == LastModeKinds(p.modes[..i])[p.modes[i].name := p.modes[i].kind];
      distinct := distinct && p.modes[i].name !in names;
      names := names + {p.modes[i].name};
      kinds := kinds[p.modes[i].name := p.modes[i].kind];
    }
    assert p.modes[..|p.modes|] == p.modes;
  }

  /** The name tables the checks consult. */
  datatype Lookups = Lookups(names: set<Node>, kinds: map<Node, ModeKind>, signals: set<string>,
                             units: map<string, string>)

  ghost predicate LooksUp(p: Program, l: Lookups) {
    && l.names == Names(p) && l.kinds == Kinds(p)
    && l.signals == SignalNames(p) && l.units == LastSignalUnits(p.signals)
  }

  predicate IsEntryFault(fault: ModeFault) {
    fault.SpanExceedsReference? || fault.TerminalDeclaresDwell? || fault.MissingDwell?
  }

  predicate IsDegreeFault(fault: ModeFault) {
    fault.TerminalHasOutgoing? || fault.NoOutgoing?
  }

  predicate IsRecoveryFault(fault: ModeFault) {
    fault.NoRecoveryEdge? || fault.NoRejoinEdge?
  }

  predicate IsPathFault(fault: ModeFault) {
    fault.Unreachable? || fault.NoPathToTerminal?
  }

  method EntryErrors(p: Program) returns (errors: seq<Violation>)
    ensures forall v :: v in errors <==> v.InMode? && IsEntryFault(v.mode) && ModeViolates(p, v.name, v.mode)
  {
    errors := [];
    for i := 0 to |p.modes|
      invariant forall v :: v in errors <==>
        v.InMode? && IsEntryFault(v.mode)
        && exists j :: 0 <= j < i && p.modes[j].name == v.name && EntryViolates(p, p.modes[j], v.mode)
    {
      var m := p.modes[i];
      errors := Report(errors, m.stop > ReferenceFrames(p), InMode(m.name, SpanExceedsReference));
      errors := Report(errors, m.kind.Terminal? && m.maxDwell.Some?, InMode(m.name, TerminalDeclaresDwell));
      errors := Report(errors, !m.kind.Terminal? && m.maxDwell.None?, InMode(m.name, MissingDwell));
    }
  }

  // ----- The transition loop ------------------------------------------------------

  predicate IsSignalFault(fault: RuleFault) {
    fault.UndeclaredGuardSignal? || fault.UndeclaredPhaseSignal? || fault.PhaseSignalNotDimensionless?
  }

  predicate IsIdentityFault(fault: RuleFault) {
    || fault.DuplicateRuleId? || fault.UnknownFrom? || fault.UnknownTo?
    || fault.SelfTransition? || fault.DuplicatePriority?
  }

  method SignalFaults(p: Program, i: nat, l: Lookups) returns (faults: seq<RuleFault>)
    requires i < |p.transitions| && LooksUp(p, l)
    ensures forall f :: f in faults <==> IsSignalFault(f) && RuleViolates(p, i, f)
  {
    var rule := p.transitions[i];
    UnitsLookup(p.signals);
    faults := Report([], rule.guard.signal !in l.signals, UndeclaredGuardSignal);
    if rule.phaseTransfer.NormalizedPhase? {
      var phase := rule.phaseTransfer.signal;
      if phase !in l.signals {
        faults := Report(faults, true, UndeclaredPhaseSignal);
      } else {
        faults := Report(faults, l.units[phase] != DIMENSIONLESS, PhaseSignalNotDimensionless);
      }
    }
  }

  method DwellFaults(p: Program, i: nat) returns (faults: seq<RuleFault>)
    requires i < |p.transitions| && IsEdge(p, p.transitions[i])
    ensures forall f :: f in faults <==> f.MinDwellExceedsMax? && RuleViolates(p, i, f)
  {
    var rule := p.transitions[i];
    FirstModeLookup(p.modes, rule.from);
    var source := FirstMode(p.modes, rule.from).value;
    faults := Report([], source.maxDwell.Some? && rule.minDwell > source.maxDwell.value, MinDwellExceedsMax);
  }

  predicate IsKindFault(fault: RuleFault) {
    || fault.EntersRecoveryByOtherEdge? || fault.RecoveryEdgeElsewhere?
    || fault.LeavesRecoveryByOtherEdge? || fault.RejoinsOtherThanTask? || fault.RejoinEdgeElsewhere?
  }

  method KindFaults(p: Program, i: nat, l: Lookups) returns (faults: seq<RuleFault>)
    requires i < |p.transitions| && IsEdge(p, p.transitions[i]) && LooksUp(p, l)
    ensures forall f :: f in faults <==> IsKindFault(f) && RuleViolates(p, i, f)
  {
    var rule := p.transitions[i];
    KindsLookup(p.modes);
    var sourceKind, targetKind := l.kinds[rule.from], l.kinds[rule.to];
    if targetKind.Recovery? {
      faults := Report([], !rule.kind.Recovery?, EntersRecoveryByOtherEdge);
    } else {
      faults := Report([], rule.kind.Recovery?, RecoveryEdgeElsewhere);
    }
    if sourceKind.Recovery? {
      faults := Report(faults, !rule.kind.Rejoin?, LeavesRecoveryByOtherEdge);
      faults := Report(faults, !targetKind.Task?, RejoinsOtherThanTask);
    } else {
      faults := Report(faults, rule.kind.Rejoin?, RejoinEdgeElsewhere);
    }
  }

  /** Extends the reported transition errors, exact for rules before `i`, by the faults of rule `i`. */
  method AppendFaults(errors: seq<Violation>, i: nat, faults: seq<RuleFault>, ghost has: (nat, RuleFault) -> bool)
    returns (extended: seq<Violation>)
    requires forall v :: v in errors <==> v.InRule? && v.index < i && has(v.index, v.rule)
    requires forall f :: f in faults <==> has(i, f)
    ensures forall v :: v in extended <==> v.InRule? && v.index < i + 1 && has(v.index, v.rule)
  {
    extended := errors;
    for k := 0 to |faults|
      invariant forall v :: v in extended <==> v in errors || (v.InRule? && v.index == i && v.rule in faults[..k])
    {
      extended := extended + [InRule(i, faults[k])];
    }
  }

  ghost function IdsUpTo(p: Program, count: nat): set<string>
    requires count <= |p.transitions|
  {
    set j | 0 <= j < count :: p.transitions[j].id
  }

  ghost function PrioritiesUpTo(p: Program, count: nat): set<(Node, nat)>
    requires count <= |p.transitions|
  {
    set j | 0 <= j < count :: (p.transitions[j].from, p.transitions[j].priority)
  }

  lemma AddIdentity(p: Program, i: nat)
    requires i < |p.transitions|
    ensures IdsUpTo(p, i + 1) == IdsUpTo(p, i) + {p.transitions[i].id}
    ensures PrioritiesUpTo(p, i + 1) == PrioritiesUpTo(p, i) + {(p.transitions[i].from, p.transitions[i].priority)}
  {
  }

  /** The rules leaving `name` towards a known mode, among the first `count`. */
  ghost function RulesFrom(p: Program, count: nat, name: Node): seq<TransitionRule>
    requires count <= |p.transitions|
  {
    if count == 0 then []
    else
      var rule := p.transitions[count - 1];
      RulesFrom(p, count - 1, name) + if rule.from == name && IsEdge(p, rule) then [rule] else []
  }

  ghost function RuleTable(p: Program, count: nat): map<Node, seq<TransitionRule>>
    requires count <= |p.transitions|
  {
    map n | n in Names(p) :: RulesFrom(p, count, n)
  }

  lemma AddToTable(p: Program, i: nat)
    requires i < |p.transitions|
    ensures RuleTable(p, i + 1) ==
      var rule, before := p.transitions[i], RuleTable(p, i);
      if IsEdge(p, rule) then before[rule.from := before[rule.from] + [rule]] else before
  {
    var rule, before := p.transitions[i], RuleTable(p, i);
    var expected := if IsEdge(p, rule) then before[rule.from := before[rule.from] + [rule]] else before;
    forall n | n in Names(p)
      ensures RuleTable(p, i + 1)[n] == expected[n]
    {
    }
    assert RuleTable(p, i + 1) == expected;
  }

  lemma {:induction false} RulesFromEmpty(p: Program, count: nat, name: Node)
    requires count <= |p.transitions|
    ensures RulesFrom(p, count, name) == [] <==>
      !exists i :: 0 <= i < count && p.transitions[i].from == name && IsEdge(p, p.transitions[i])
  {
    if count > 0 {
      RulesFromEmpty(p, count - 1, name);
    }
  }

  lemma NoEdgesYet(p: Program, zeroDwellOnly: bool)
    ensures EdgesUpTo(p, 0, zeroDwellOnly) == map n | n in Names(p) :: {}
  {
    forall n | n in Names(p)
      ensures EdgesUpTo(p, 0, zeroDwellOnly)[n] == {}
    {
    }
  }

  lemma AddEdge(p: Program, i: nat, zeroDwellOnly: bool)
    requires i < |p.transitions|
    ensures EdgesUpTo(p, i + 1, zeroDwellOnly) ==
      var rule, before := p.transitions[i], EdgesUpTo(p, i, zeroDwellOnly);
      if IsEdge(p, rule) && (zeroDwellOnly ==> rule.minDwell == 0)
      then before[rule.from := before[rule.from] + {rule.to}] else before
  {
    var rule := p.transitions[i];
    forall n, t
      ensures EdgeBetween(p, i + 1, zeroDwellOnly, n, t) <==>
        || EdgeBetween(p, i, zeroDwellOnly, n, t)
        || (rule.from == n && rule.to == t && (zeroDwellOnly ==> rule.minDwell == 0))
    {
      if rule.from == n && rule.to == t && (zeroDwellOnly ==> rule.minDwell == 0) {
        assert p.transitions[i].from == n;
      }
    }
    var before, after := EdgesUpTo(p, i, zeroDwellOnly), EdgesUpTo(p, i + 1, zeroDwellOnly);
    var expected := if IsEdge(p, rule) && (zeroDwellOnly ==> rule.minDwell == 0)
      then before[rule.from := before[rule.from] + {rule.to}] else before;
    forall n | n in Names(p)
      ensures after[n] == expected[n]
    {
    }
    assert after == expected;
  }

  method FaultsOfRule(p: Program, i: nat, l: Lookups, tables: RuleTables) returns (faults: seq<RuleFault>)
    requires i < |p.transitions| && LooksUp(p, l) && Tabulates(p, i, tables)
    ensures forall f :: f in faults <==> RuleViolates(p, i, f)
  {
    var signal := SignalFaults(p, i, l);
    var identity := IdentityFaults(p, i, l, tables);
    var edge := [];
    if p.transitions[i].from in l.names && p.transitions[i].to in l.names {
      var dwell := DwellFaults(p, i);
      var kind := KindFaults(p, i, l);
      edge := dwell + kind;
    }
    faults := signal + identity + edge;
    forall f
      ensures f in faults <==> RuleViolates(p, i, f)
    {
      assert f in faults <==> f in signal || f in identity || f in edge;
    }
  }

  /** What the transition loop accumulates besides the errors. */
  datatype RuleTables = RuleTables(
    ids: set<string>, priorities: set<(Node, nat)>,
    adjacency: Adjacency, zeroDwell: Adjacency, outgoing: map<Node, seq<TransitionRule>>)

  ghost function TablesUpTo(p: Program, count: nat): RuleTables
    requires count <= |p.transitions|
  {
    RuleTables(IdsUpTo(p, count), PrioritiesUpTo(p, count),
               EdgesUpTo(p, count, false), EdgesUpTo(p, count, true), RuleTable(p, count))
  }

  ghost predicate Tabulates(p: Program, count: nat, tables: RuleTables)
    requires count <= |p.transitions|
  {
    tables == TablesUpTo(p, count)
  }

  method EmptyTables(p: Program, l: Lookups) returns (tables: RuleTables)
    requires LooksUp(p, l)
    ensures Tabulates(p, 0, tables)
  {
    tables := RuleTables({}, {}, map n | n in l.names :: {}, map n | n in l.names :: {}, map n | n in l.names :: []);
    NoEdgesYet(p, false);
    NoEdgesYet(p, true);
  }

  method AddRule(p: Program, i: nat, l: Lookups, before: RuleTables) returns (tables: RuleTables)
    requires i < |p.transitions| && LooksUp(p, l) && Tabulates(p, i, before)
    ensures Tabulates(p, i + 1, tables)
  {
    var rule := p.transitions[i];
    AddIdentity(p, i);
    AddEdge(p, i, false);
    AddEdge(p, i, true);
    AddToTable(p, i);
    tables := before.(ids := before.ids + {rule.id}, priorities := before.priorities + {(rule.from, rule.priority)});
    if rule.from in l.names && rule.to in l.names {
      tables := tables.(adjacency := before.adjacency[rule.from := before.adjacency[rule.from] + {rule.to}]);
      if rule.minDwell == 0 {
        tables := tables.(zeroDwell := before.zeroDwell[rule.from := before.zeroDwell[rule.from] + {rule.to}]);
      }
      tables := tables.(outgoing := before.outgoing[rule.from := before.outgoing[rule.from] + [rule]]);
    }
  }

  /** The errors are those of the first `count` rules, exactly. */
  ghost predicate ReportsRules(p: Program, count: nat, errors: seq<Violation>) {
    forall v :: v in errors <==> v.InRule? && v.index < count && RuleViolates(p, v.index, v.rule)
  }

  method CheckRule(p: Program, i: nat, l: Lookups, errors: seq<Violation>, tables: RuleTables)
    returns (errors': seq<Violation>, tables': RuleTables)
    requires i < |p.transitions| && LooksUp(p, l) && Tabulates(p, i, tables) && ReportsRules(p, i, errors)
    ensures Tabulates(p, i + 1, tables') && ReportsRules(p, i + 1, errors')
  {
    var faults := FaultsOfRule(p, i, l, tables);
    errors' := AppendFaults(errors, i, faults, (i: nat, f: RuleFault) => RuleViolates(p, i, f));
    tables' := AddRule(p, i, l, tables);
  }

  method RuleErrors(p: Program, l: Lookups) returns (errors: seq<Violation>, tables: RuleTables)
    requires LooksUp(p, l)
    ensures ReportsRules(p, |p.transitions|, errors)
    ensures Tabulates(p, |p.transitions|, tables)
  {
    errors := [];
    tables := EmptyTables(p, l);
    var i := 0;
    while i < |p.transitions|
      invariant i <= |p.transitions|
      invariant Tabulates(p, i, tables) && ReportsRules(p, i, errors)
    {
      errors, tables := CheckRule(p, i, l, errors, tables);
      i := i + 1;
    }
    assert i == |p.transitions|;
  }

  method IdentityFaults(p: Program, i: nat, l: Lookups, tables: RuleTables) returns (faults: seq<RuleFault>)
    requires i < |p.transitions| && LooksUp(p, l) && Tabulates(p, i, tables)
    ensures forall f :: f in faults <==> IsIdentityFault(f) && RuleViolates(p, i, f)
  {
    var rule := p.transitions[i];
    faults := Report([], rule.id in tables.ids, DuplicateRuleId);
    faults := Report(faults, rule.from !in l.names, UnknownFrom);
    faults := Report(faults, rule.to !in l.names, UnknownTo);
    faults := Report(faults, rule.from == rule.to, SelfTransition);
    faults := Report(faults, (rule.from, rule.priority) in tables.priorities, DuplicatePriority);
  }

  // ----- Degree, recovery and path checks --------------------------------------------

  method DegreeErrors(p: Program, outgoing: map<Node, seq<TransitionRule>>) returns (errors: seq<Violation>)
    requires outgoing == RuleTable(p, |p.transitions|)
    ensures forall v :: v in errors <==> v.InMode? && IsDegreeFault(v.mode) && ModeViolates(p, v.name, v.mode)
  {
    errors := [];
    for i := 0 to |p.modes|
      invariant forall v :: v in errors <==>
        v.InMode? && IsDegreeFault(v.mode)
        && exists j :: 0 <= j < i && p.modes[j].name == v.name && EntryViolates(p, p.modes[j], v.mode)
    {
      var m := p.modes[i];
      assert m.name in Names(p);
      RulesFromEmpty(p, |p.transitions|, m.name);
      assert outgoing[m.name] != [] <==> HasOutgoing(p, m.name);
      errors := Report(errors, m.kind.Terminal? && outgoing[m.name] != [], InMode(m.name, TerminalHasOutgoing));
      errors := Report(errors, !m.kind.Terminal? && outgoing[m.name] == [], InMode(m.name, NoOutgoing));
    }
  }

  method RecoveryErrors(p: Program, recoveries: set<Node>) returns (errors: seq<Violation>)
    requires forall n :: n in recoveries <==> HasKind(p, n, ModeKind.Recovery)
    ensures forall v :: v in errors <==> v.InMode? && IsRecoveryFault(v.mode) && ModeViolates(p, v.name, v.mode)
  {
    errors := [];
    var pending := recoveries;
    while pending != {}
      invariant pending <= recoveries
      invariant forall v :: v in errors <==>
        v.InMode? && IsRecoveryFault(v.mode) && v.name !in pending && ModeViolates(p, v.name, v.mode)
      decreases pending
    {
      var recovery :| recovery in pending;
      pending := pending - {recovery};
      var incoming := exists r | r in p.transitions :: r.to == recovery && r.kind.Recovery?;
      var rejoin := exists r | r in p.transitions :: r.from == recovery && r.kind.Rejoin?;
      assert incoming <==> HasRecoveryEdge(p, recovery);
      assert rejoin <==> HasRejoinEdge(p, recovery);
      errors := Report(errors, !incoming, InMode(recovery, NoRecoveryEdge));
      errors := Report(errors, !rejoin, InMode(recovery, NoRejoinEdge));
    }
  }

  /** The reversed adjacency, one key of the forward table at a time. */
  method Reverse(names: set<Node>, adjacency: Adjacency) returns (reverse: Adjacency)
    requires adjacency.Keys == names && forall n :: n in names ==> adjacency[n] <= names
    ensures IsReverse(adjacency, reverse)
  {
    reverse := map n | n in names :: {};
    var sources := names;
    while sources != {}
      invariant sources <= names && reverse.Keys == names
      invariant forall a, b {:trigger a in reverse[b]} :: b in names ==>
        (a in reverse[b] <==> a in names && a !in sources && b in adjacency[a])
      decreases sources
    {
      var source :| source in sources;
      sources := sources - {source};
      var targets := adjacency[source];
      while targets != {}
        invariant targets <= adjacency[source] && reverse.Keys == names
        invariant forall a, b {:trigger a in reverse[b]} :: b in names ==>
          (a in reverse[b] <==> a in names && a !in sources && b in adjacency[a] && (a == source ==> b !in targets))
        decreases targets
      {
        var target :| target in targets;
        targets := targets - {target};
        reverse := reverse[target := reverse[target] + {source}];
      }
    }
  }

  /** The modes from which some terminal can be reached. */
  method TerminalReaching(p: Program, names: set<Node>, terminals: set<Node>, adjacency: Adjacency)
    returns (found: set<Node>)
    requires names == Names(p) && adjacency == Edges(p)
    requires forall n :: n in terminals <==> HasKind(p, n, ModeKind.Terminal)
    ensures forall n :: n in found <==> ReachesTerminal(p, n)
  {
    var reverse := Reverse(names, adjacency);
    found := {};
    var pending := terminals;
    while pending != {}
      invariant pending <= terminals
      invariant forall n :: n in found <==> exists t :: t in terminals - pending && Joined(adjacency, n, t)
      decreases pending
    {
      var terminal :| terminal in pending;
      pending := pending - {terminal};
      var reached := PathReachable(terminal, reverse);
      forall n
        ensures n in reached <==> Joined(adjacency, n, terminal)
      {
        JoinedReverse(adjacency, reverse, n, terminal);
      }
      found := found + reached;
    }
  }

  method PathErrors(p: Program, names: set<Node>, terminals: set<Node>, adjacency: Adjacency)
    returns (errors: seq<Violation>)
    requires names == Names(p) && adjacency == Edges(p)
    requires forall n :: n in terminals <==> HasKind(p, n, ModeKind.Terminal)
    ensures forall v :: v in errors <==> v.InMode? && IsPathFault(v.mode) && ModeViolates(p, v.name, v.mode)
  {
    errors := [];
    if p.entry in names {
      var reachable := PathReachable(p.entry, adjacency);
      for i := 0 to |p.modes|
        invariant forall v :: v in errors <==>
          v.InMode? && v.mode == Unreachable && !Joined(adjacency, p.entry, v.name)
          && exists j :: 0 <= j < i && p.modes[j].name == v.name
      {
        errors := Report(errors, p.modes[i].name !in reachable, InMode(p.modes[i].name, Unreachable));
      }
    }
    ghost var unreachable := errors;
    assert forall v :: v in unreachable <==> v.InMode? && v.mode == Unreachable && ModeViolates(p, v.name, v.mode);
    var found := TerminalReaching(p, names, terminals, adjacency);
    for i := 0 to |p.modes|
      invariant forall v :: v in errors <==>
        v in unreachable ||
        (v.InMode? && v.mode == NoPathToTerminal && !ReachesTerminal(p, v.name)
         && exists j :: 0 <= j < i && p.modes[j].name == v.name)
    {
      errors := Report(errors, p.modes[i].name !in found, InMode(p.modes[i].name, NoPathToTerminal));
    }
  }

  method TableErrors(p: Program, l: Lookups, terminals: set<Node>, distinctModes: bool, distinctSignals: bool)
    returns (errors: seq<Violation>)
    requires LooksUp(p, l)
    requires distinctModes == DistinctModeNames(p) && distinctSignals == DistinctSignalNames(p)
    requires forall n :: n in terminals <==> HasKind(p, n, ModeKind.Terminal)
    ensures forall v :: v in errors <==> v.InTables? && v.tables != ZeroDwellCycle && TablesViolate(p, v.tables)
  {
    KindsLookup(p.modes);
    errors := Report([], !distinctSignals, InTables(DuplicateSignalNames));
    errors := Report(errors, !distinctModes, InTables(DuplicateModeNames));
    errors := Report(errors, p.entry !in l.names, InTables(UnknownEntry));
    errors := Report(errors, terminals == {}, InTables(NoTerminal));
    errors := Report(errors, p.entry in l.kinds && !l.kinds[p.entry].Task?, InTables(EntryNotTask));
  }

  method CollectViolations(p: Program) returns (errors: seq<Violation>)
    ensures forall v :: v in errors <==> Violates(p, v)
  {
    errors := HeaderErrors(p);
    if p.modes == [] {
      return;
    }
    ghost var header := errors;
    var signals, units, distinctSignals := SignalTable(p);
    var names, kinds, distinctModes := ModeTable(p);
    var l := Lookups(names, kinds, signals, units);
    var terminals := set n | n in kinds && kinds[n] == ModeKind.Terminal;
    var recoveries := set n | n in kinds && kinds[n] == ModeKind.Recovery;
    var tables := TableErrors(p, l, terminals, distinctModes, distinctSignals);
    var entry := EntryErrors(p);
    var rules, edges := RuleErrors(p, l);
    var degree := DegreeErrors(p, edges.outgoing);
    var recovery := RecoveryErrors(p, recoveries);
    var cyclic := HasDirectedCycle(edges.zeroDwell);
    var cycle := Report([], cyclic, InTables(ZeroDwellCycle));
    var paths := PathErrors(p, names, terminals, edges.adjacency);
    errors := errors + tables + entry + rules + degree + recovery + cycle + paths;
    forall v
      ensures v in errors <==> Violates(p, v)
    {
      assert v in errors <==> v in header || v in tables || v in entry || v in rules
                              || v in degree || v in recovery || v in cycle || v in paths;
    }
  }

  /** The validator reports a violation exactly when the program has it, and nothing
   *  exactly when the program is well formed. */
  method ValidateProgram(p: Program) returns (errors: seq<Violation>)
    ensures forall v :: v in errors <==> Violates(p, v)
    ensures errors == [] <==> WellFormed(p)
  {
    errors := CollectViolations(p);
    NoViolationIffWellFormed(p);
    assert errors != [] ==> errors[0] in errors;
  }

  lemma NoViolationIffWellFormed(p: Program)
    ensures (forall v :: !Violates(p, v)) <==> WellFormed(p)
  {
    if forall v :: !Violates(p, v) {
      NoViolationIsWellFormed(p);
    }
    if WellFormed(p) {
      forall v
        ensures !Violates(p, v)
      {
        WellFormedHasNoViolation(p, v);
      }
    }
  }

  lemma WellFormedTables(p: Program, fault: TableFault)
    requires WellFormedModes(p) && !HasCycle(ZeroDwellEdges(p))
    ensures !TablesViolate(p, fault)
  {
    KindsLookup(p.modes);
    KindIsMode(p, p.entry, ModeKind.Task);
    var i :| 0 <= i < |p.modes| && p.modes[i].kind.Terminal?;
    KindIsMode(p, p.modes[i].name, ModeKind.Terminal);
  }

  lemma WellFormedMode(p: Program, name: Node, fault: ModeFault)
    requires WellFormedModes(p) && RecoveryEdgesPresent(p)
    requires !IsPathFault(fault)
    ensures !ModeViolates(p, name, fault)
  {
    KindIsMode(p, name, ModeKind.Recovery);
  }

  lemma WellFormedModePaths(p: Program, name: Node, fault: ModeFault)
    requires DistinctModeNames(p) && WellFormedPaths(p)
    requires IsPathFault(fault)
    ensures !ModeViolates(p, name, fault)
  {
    if name in Names(p) {
      var terminal :| IsMode(p, terminal, ModeKind.Terminal) && Joined(Edges(p), name, terminal);
      KindIsMode(p, terminal, ModeKind.Terminal);
    }
  }

  lemma WellFormedTransition(p: Program, i: nat, fault: RuleFault)
    requires DistinctModeNames(p) && DistinctSignalNames(p) && WellFormedRules(p)
    ensures !RuleViolates(p, i, fault)
  {
    if i < |p.transitions| {
      var rule := p.transitions[i];
      assert WellFormedRule(p, rule);
      KindIsMode(p, rule.to, ModeKind.Recovery);
      KindIsMode(p, rule.from, ModeKind.Recovery);
      KindIsMode(p, rule.to, ModeKind.Task);
      UnitsLookup(p.signals);
      FirstModeLookup(p.modes, rule.from);
    }
  }

  lemma WellFormedHasNoViolation(p: Program, v: Violation)
    requires WellFormed(p)
    ensures !Violates(p, v)
  {
    match v
    case InHeader(_) =>
    case InTables(fault) => WellFormedTables(p, fault);
    case InMode(name, fault) =>
      if IsPathFault(fault) {
        WellFormedModePaths(p, name, fault);
      } else {
        WellFormedMode(p, name, fault);
      }
    case InRule(i, fault) => WellFormedTransition(p, i, fault);
  }

  lemma NoViolationIsWellFormed(p: Program)
    requires forall v :: !Violates(p, v)
    ensures WellFormed(p)
  {
    NoHeaderViolation(p);
    NoModeViolation(p);
    forall i | 0 <= i < |p.transitions|
      ensures WellFormedRule(p, p.transitions[i])
    {
      NoRuleViolation(p, i);
    }
    DistinctFromNoDuplicates(p);
    NoPathViolation(p);
  }

  lemma NoHeaderViolation(p: Program)
    requires forall v :: !Violates(p, v)
    ensures WellFormedHeader(p)
  {
    assert !Violates(p, InHeader(BadProgramId));
    assert !Violates(p, InHeader(BadReference));
    assert !Violates(p, InHeader(BadHorizon));
    assert !Violates(p, InHeader(BadMaxQueries));
    assert !Violates(p, InHeader(NoModes));
  }

  lemma NoTableViolation(p: Program)
    requires forall v :: !Violates(p, v)
    ensures DistinctModeNames(p) && DistinctSignalNames(p)
    ensures HasKind(p, p.entry, ModeKind.Task)
    ensures exists name :: HasKind(p, name, ModeKind.Terminal)
    ensures !HasCycle(ZeroDwellEdges(p))
  {
    NoHeaderViolation(p);
    assert !Violates(p, InTables(DuplicateSignalNames));
    assert !Violates(p, InTables(DuplicateModeNames));
    assert !Violates(p, InTables(UnknownEntry));
    assert !Violates(p, InTables(NoTerminal));
    assert !Violates(p, InTables(EntryNotTask));
    assert !Violates(p, InTables(ZeroDwellCycle));
  }

  lemma NoModeViolation(p: Program)
    requires forall v :: !Violates(p, v)
    ensures WellFormedModes(p) && RecoveryEdgesPresent(p)
  {
    NoHeaderViolation(p);
    NoTableViolation(p);
    KindIsMode(p, p.entry, ModeKind.Task);
    var terminal :| HasKind(p, terminal, ModeKind.Terminal);
    KindIsMode(p, terminal, ModeKind.Terminal);
    forall i | 0 <= i < |p.modes|
      ensures p.modes[i].stop <= ReferenceFrames(p)
      ensures p.modes[i].kind.Terminal? <==> p.modes[i].maxDwell.None?
      ensures p.modes[i].kind.Terminal? <==> !HasOutgoing(p, p.modes[i].name)
      ensures p.modes[i].kind.Recovery? ==> HasRecoveryEdge(p, p.modes[i].name) && HasRejoinEdge(p, p.modes[i].name)
    {
      var name := p.modes[i].name;
      assert !Violates(p, InMode(name, SpanExceedsReference));
      assert !Violates(p, InMode(name, TerminalDeclaresDwell));
      assert !Violates(p, InMode(name, MissingDwell));
      assert !Violates(p, InMode(name, TerminalHasOutgoing));
      assert !Violates(p, InMode(name, NoOutgoing));
      KindIsMode(p, name, ModeKind.Recovery);
      assert !Violates(p, InMode(name, NoRecoveryEdge));
      assert !Violates(p, InMode(name, NoRejoinEdge));
    }
  }

  lemma NoRuleViolation(p: Program, i: nat)
    requires (forall v :: !Violates(p, v)) && i < |p.transitions|
    ensures WellFormedRule(p, p.transitions[i])
  {
    NoHeaderViolation(p);
    NoTableViolation(p);
    forall f
      ensures !RuleViolates(p, i, f)
    {
      assert !Violates(p, InRule(i, f));
    }
    SignalsResolve(p, i);
    EdgeResolves(p, i);
    KindsAgree(p, i);
  }

  lemma SignalsResolve(p: Program, i: nat)
    requires DistinctSignalNames(p) && i < |p.transitions|
    requires forall f :: !RuleViolates(p, i, f)
    ensures p.transitions[i].guard.signal in SignalNames(p)
    ensures p.transitions[i].phaseTransfer.NormalizedPhase? ==>
      IsDimensionlessSignal(p, p.transitions[i].phaseTransfer.signal)
  {
    assert !RuleViolates(p, i, UndeclaredGuardSignal);
    assert !RuleViolates(p, i, UndeclaredPhaseSignal);
    assert !RuleViolates(p, i, PhaseSignalNotDimensionless);
    UnitsLookup(p.signals);
  }

  lemma EdgeResolves(p: Program, i: nat)
    requires i < |p.transitions|
    requires forall f :: !RuleViolates(p, i, f)
    ensures IsEdge(p, p.transitions[i]) && p.transitions[i].from != p.transitions[i].to
      && DwellFits(p, p.transitions[i])
  {
    assert !RuleViolates(p, i, UnknownFrom);
    assert !RuleViolates(p, i, UnknownTo);
    assert !RuleViolates(p, i, SelfTransition);
    assert !RuleViolates(p, i, MinDwellExceedsMax);
    FirstModeLookup(p.modes, p.transitions[i].from);
  }

  lemma KindsAgree(p: Program, i: nat)
    requires DistinctModeNames(p) && i < |p.transitions| && IsEdge(p, p.transitions[i])
    requires forall f :: !RuleViolates(p, i, f)
    ensures p.transitions[i].kind.Recovery? <==> IsMode(p, p.transitions[i].to, ModeKind.Recovery)
    ensures p.transitions[i].kind.Rejoin? <==> IsMode(p, p.transitions[i].from, ModeKind.Recovery)
    ensures p.transitions[i].kind.Rejoin? ==> IsMode(p, p.transitions[i].to, ModeKind.Task)
  {
    var rule := p.transitions[i];
    assert !RuleViolates(p, i, EntersRecoveryByOtherEdge);
    assert !RuleViolates(p, i, RecoveryEdgeElsewhere);
    assert !RuleViolates(p, i, LeavesRecoveryByOtherEdge);
    assert !RuleViolates(p, i, RejoinsOtherThanTask);
    assert !RuleViolates(p, i, RejoinEdgeElsewhere);
    KindIsMode(p, rule.to, ModeKind.Recovery);
    KindIsMode(p, rule.from, ModeKind.Recovery);
    KindIsMode(p, rule.to, ModeKind.Task);
  }

  lemma DistinctFromNoDuplicates(p: Program)
    requires forall v :: !Violates(p, v)
    ensures DistinctRules(p)
  {
    NoHeaderViolation(p);
    forall i, j | 0 <= i < j < |p.transitions|
      ensures p.transitions[i].id != p.transitions[j].id
      ensures p.transitions[i].from == p.transitions[j].from ==> p.transitions[i].priority != p.transitions[j].priority
    {
      assert !Violates(p, InRule(j, DuplicateRuleId));
      assert !Violates(p, InRule(j, DuplicatePriority));
    }
  }

  lemma NoPathViolation(p: Program)
    requires forall v :: !Violates(p, v)
    ensures WellFormedPaths(p)
  {
    NoHeaderViolation(p);
    NoTableViolation(p);
    KindsLookup(p.modes);
    forall n | n in Names(p)
      ensures Joined(Edges(p), p.entry, n)
      ensures exists terminal :: IsMode(p, terminal, ModeKind.Terminal) && Joined(Edges(p), n, terminal)
    {
      assert !Violates(p, InMode(n, Unreachable));
      assert !Violates(p, InMode(n, NoPathToTerminal));
      var terminal :| HasKind(p, terminal, ModeKind.Terminal) && Joined(Edges(p), n, terminal);
      KindIsMode(p, terminal, ModeKind.Terminal);
    }
  }
}
