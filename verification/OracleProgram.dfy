/** The finite-state composition program and the well-formedness its validator decides. */
module OracleProgram {
  import opened Wrappers
  import opened Digraph
  import opened ScalarGuards
  import ReferenceWindows

  const MAX_QUERIES := 10_000_000
  const MAX_IDENTIFIER_LENGTH := 256
  const DIMENSIONLESS := "1"

  datatype ModeKind = Task | Recovery | Terminal

  datatype TransitionKind = Advance | Recovery | Rejoin

  datatype PhaseTransfer = ResetToStart | NormalizedPhase(signal: string)

  datatype SignalSpec = SignalSpec(name: string, unit: string)

  datatype ModeSpec = ModeSpec(name: Node, start: nat, stop: nat, kind: ModeKind, maxDwell: Option<nat>)

  datatype TransitionRule = TransitionRule(
    id: string, from: Node, to: Node, guard: ScalarGuard, priority: nat,
    phaseTransfer: PhaseTransfer, minDwell: nat, kind: TransitionKind)

  /** `referenceFrames` is None when the bound reference is not a reference identity. */
  datatype Program = Program(
    programId: string, referenceFrames: Option<nat>, entry: Node,
    modes: seq<ModeSpec>, transitions: seq<TransitionRule>, signals: seq<SignalSpec>,
    horizonSteps: int, maxQueries: int)

  predicate IsAlphanumeric(c: char) {
    'A' <= c <= 'Z' || 'a' <= c <= 'z' || '0' <= c <= '9'
  }

  predicate IsIdentifier(s: string) {
    && 1 <= |s| <= MAX_IDENTIFIER_LENGTH
    && IsAlphanumeric(s[0])
    && forall i :: 0 < i < |s| ==> IsAlphanumeric(s[i]) || s[i] in "_.:/-"
  }

  // ----- Tables read off the program -------------------------------------------

  ghost function Names(p: Program): set<Node> {
    set i | 0 <= i < |p.modes| :: p.modes[i].name
  }

  ghost function SignalNames(p: Program): set<string> {
    set i | 0 <= i < |p.signals| :: p.signals[i].name
  }

  ghost predicate DistinctModeNames(p: Program) {
    forall i, j :: 0 <= i < j < |p.modes| ==> p.modes[i].name != p.modes[j].name
  }

  ghost predicate DistinctSignalNames(p: Program) {
    forall i, j :: 0 <= i < j < |p.signals| ==> p.signals[i].name != p.signals[j].name
  }

  /** A later entry of the same name wins, as in a dictionary comprehension. */
  ghost function LastModeKinds(modes: seq<ModeSpec>): map<Node, ModeKind> {
    if modes == [] then map[]
    else LastModeKinds(modes[..|modes| - 1])[modes[|modes| - 1].name := modes[|modes| - 1].kind]
  }

  ghost function Kinds(p: Program): (kinds: map<Node, ModeKind>) {
    LastModeKinds(p.modes)
  }

  ghost function LastSignalUnits(signals: seq<SignalSpec>): map<string, string> {
    if signals == [] then map[]
    else LastSignalUnits(signals[..|signals| - 1])[signals[|signals| - 1].name := signals[|signals| - 1].unit]
  }

  ghost predicate HasKind(p: Program, name: Node, kind: ModeKind) {
    name in Kinds(p) && Kinds(p)[name] == kind
  }

  /** The mode a lookup by name returns: the first one that carries it. */
  function FirstMode(modes: seq<ModeSpec>, name: Node): Option<ModeSpec> {
    if modes == [] then None
    else if modes[0].name == name then Some(modes[0])
    else FirstMode(modes[1..], name)
  }

  ghost predicate IsEdge(p: Program, rule: TransitionRule) {
    rule.from in Names(p) && rule.to in Names(p)
  }

  /** One of the first `count` rules is an edge between these two known modes. */
  ghost predicate EdgeBetween(p: Program, count: nat, zeroDwellOnly: bool, from: Node, to: Node)
    requires count <= |p.transitions|
  {
    exists i :: 0 <= i < count && p.transitions[i].from == from && p.transitions[i].to == to
                && (zeroDwellOnly ==> p.transitions[i].minDwell == 0)
  }

  ghost function EdgesUpTo(p: Program, count: nat, zeroDwellOnly: bool): Adjacency
    requires count <= |p.transitions|
  {
    map n | n in Names(p) :: set t | t in Names(p) && EdgeBetween(p, count, zeroDwellOnly, n, t)
  }

  ghost function Edges(p: Program): Adjacency {
    EdgesUpTo(p, |p.transitions|, false)
  }

  ghost function ZeroDwellEdges(p: Program): Adjacency {
    EdgesUpTo(p, |p.transitions|, true)
  }

  ghost predicate HasOutgoing(p: Program, name: Node) {
    exists i :: 0 <= i < |p.transitions| && p.transitions[i].from == name && IsEdge(p, p.transitions[i])
  }

  ghost predicate ReachesTerminal(p: Program, name: Node) {
    exists terminal :: HasKind(p, terminal, ModeKind.Terminal) && Joined(Edges(p), name, terminal)
  }

  ghost predicate HasRecoveryEdge(p: Program, name: Node) {
    exists i :: 0 <= i < |p.transitions| && p.transitions[i].to == name && p.transitions[i].kind.Recovery?
  }

  ghost predicate HasRejoinEdge(p: Program, name: Node) {
    exists i :: 0 <= i < |p.transitions| && p.transitions[i].from == name && p.transitions[i].kind.Rejoin?
  }

  // ----- Violations --------------------------------------------------------------

  datatype HeaderFault =
    | BadProgramId | BadReference | BadHorizon | BadMaxQueries | NoModes

  datatype TableFault =
    | DuplicateSignalNames | DuplicateModeNames | UnknownEntry | NoTerminal | EntryNotTask | ZeroDwellCycle

  datatype ModeFault =
    | SpanExceedsReference | TerminalDeclaresDwell | MissingDwell
    | TerminalHasOutgoing | NoOutgoing
    | NoRecoveryEdge | NoRejoinEdge
    | Unreachable | NoPathToTerminal

  datatype RuleFault =
    | UndeclaredGuardSignal | UndeclaredPhaseSignal | PhaseSignalNotDimensionless
    | DuplicateRuleId | UnknownFrom | UnknownTo | SelfTransition | DuplicatePriority
    | MinDwellExceedsMax
    | EntersRecoveryByOtherEdge | RecoveryEdgeElsewhere
    | LeavesRecoveryByOtherEdge | RejoinsOtherThanTask | RejoinEdgeElsewhere

  datatype Violation =
    | InHeader(header: HeaderFault)
    | InTables(tables: TableFault)
    | InMode(name: Node, mode: ModeFault)
    | InRule(index: nat, rule: RuleFault)

  ghost predicate HeaderViolates(p: Program, fault: HeaderFault) {
    match fault
    case BadProgramId => !IsIdentifier(p.programId)
    case BadReference => p.referenceFrames.None?
    case BadHorizon => !(1 <= p.horizonSteps <= ReferenceWindows.MAX_HORIZON_STEPS)
    case BadMaxQueries => !(1 <= p.maxQueries <= MAX_QUERIES)
    case NoModes => p.modes == []
  }

  ghost predicate TablesViolate(p: Program, fault: TableFault) {
    match fault
    case DuplicateSignalNames => !DistinctSignalNames(p)
    case DuplicateModeNames => !DistinctModeNames(p)
    case UnknownEntry => p.entry !in Names(p)
    case NoTerminal => !exists name :: HasKind(p, name, ModeKind.Terminal)
    case EntryNotTask => p.entry in Names(p) && !HasKind(p, p.entry, ModeKind.Task)
    case ZeroDwellCycle => HasCycle(ZeroDwellEdges(p))
  }

  function ReferenceFrames(p: Program): nat {
    if p.referenceFrames.Some? then p.referenceFrames.value else 0
  }

  /** The faults of one mode entry taken alone. */
  ghost predicate EntryViolates(p: Program, m: ModeSpec, fault: ModeFault) {
    match fault
    case SpanExceedsReference => m.stop > ReferenceFrames(p)
    case TerminalDeclaresDwell => m.kind.Terminal? && m.maxDwell.Some?
    case MissingDwell => !m.kind.Terminal? && m.maxDwell.None?
    case TerminalHasOutgoing => m.kind.Terminal? && HasOutgoing(p, m.name)
    case NoOutgoing => !m.kind.Terminal? && !HasOutgoing(p, m.name)
    case _ => false
  }

  ghost predicate ModeViolates(p: Program, name: Node, fault: ModeFault) {
    match fault
    case NoRecoveryEdge => HasKind(p, name, ModeKind.Recovery) && !HasRecoveryEdge(p, name)
    case NoRejoinEdge => HasKind(p, name, ModeKind.Recovery) && !HasRejoinEdge(p, name)
    case Unreachable => p.entry in Names(p) && name in Names(p) && !Joined(Edges(p), p.entry, name)
    case NoPathToTerminal => name in Names(p) && !ReachesTerminal(p, name)
    case _ => exists i :: 0 <= i < |p.modes| && p.modes[i].name == name && EntryViolates(p, p.modes[i], fault)
  }

  ghost predicate DwellExceedsSource(p: Program, rule: TransitionRule) {
    var source := FirstMode(p.modes, rule.from);
    source.Some? && source.value.maxDwell.Some? && rule.minDwell > source.value.maxDwell.value
  }

  ghost predicate RuleViolates(p: Program, i: nat, fault: RuleFault) {
    i < |p.transitions| &&
    var rule := p.transitions[i];
    match fault
    case UndeclaredGuardSignal => rule.guard.signal !in SignalNames(p)
    case UndeclaredPhaseSignal => rule.phaseTransfer.NormalizedPhase? && rule.phaseTransfer.signal !in SignalNames(p)
    case PhaseSignalNotDimensionless =>
      && rule.phaseTransfer.NormalizedPhase?
      && rule.phaseTransfer.signal in LastSignalUnits(p.signals)
      && LastSignalUnits(p.signals)[rule.phaseTransfer.signal] != DIMENSIONLESS
    case DuplicateRuleId => exists j :: 0 <= j < i && p.transitions[j].id == rule.id
    case UnknownFrom => rule.from !in Names(p)
    case UnknownTo => rule.to !in Names(p)
    case SelfTransition => rule.from == rule.to
    case DuplicatePriority =>
      exists j :: 0 <= j < i && p.transitions[j].from == rule.from && p.transitions[j].priority == rule.priority
    case MinDwellExceedsMax => IsEdge(p, rule) && DwellExceedsSource(p, rule)
    case EntersRecoveryByOtherEdge =>
      IsEdge(p, rule) && HasKind(p, rule.to, ModeKind.Recovery) && !rule.kind.Recovery?
    case RecoveryEdgeElsewhere =>
      IsEdge(p, rule) && !HasKind(p, rule.to, ModeKind.Recovery) && rule.kind.Recovery?
    case LeavesRecoveryByOtherEdge =>
      IsEdge(p, rule) && HasKind(p, rule.from, ModeKind.Recovery) && !rule.kind.Rejoin?
    case RejoinsOtherThanTask =>
      IsEdge(p, rule) && HasKind(p, rule.from, ModeKind.Recovery) && !HasKind(p, rule.to, ModeKind.Task)
    case RejoinEdgeElsewhere =>
      IsEdge(p, rule) && !HasKind(p, rule.from, ModeKind.Recovery) && rule.kind.Rejoin?
  }

  /** Everything the validator may report; without modes only the header is looked at. */
  ghost predicate Violates(p: Program, v: Violation) {
    match v
    case InHeader(fault) => HeaderViolates(p, fault)
    case InTables(fault) => p.modes != [] && TablesViolate(p, fault)
    case InMode(name, fault) => p.modes != [] && ModeViolates(p, name, fault)
    case InRule(index, fault) => p.modes != [] && RuleViolates(p, index, fault)
  }

  // ----- Well-formedness, stated without the validator's tables ----------------------

  ghost predicate WellFormedHeader(p: Program) {
    && IsIdentifier(p.programId)
    && p.referenceFrames.Some?
    && 1 <= p.horizonSteps <= ReferenceWindows.MAX_HORIZON_STEPS
    && 1 <= p.maxQueries <= MAX_QUERIES
    && p.modes != []
  }

  ghost predicate WellFormedModes(p: Program) {
    && DistinctModeNames(p)
    && DistinctSignalNames(p)
    && (exists i :: 0 <= i < |p.modes| && p.modes[i].name == p.entry && p.modes[i].kind.Task?)
    && (exists i :: 0 <= i < |p.modes| && p.modes[i].kind.Terminal?)
    && forall i :: 0 <= i < |p.modes| ==>
      && p.modes[i].stop <= ReferenceFrames(p)
      && (p.modes[i].kind.Terminal? <==> p.modes[i].maxDwell.None?)
      && (p.modes[i].kind.Terminal? <==> !HasOutgoing(p, p.modes[i].name))
  }

  ghost predicate IsMode(p: Program, name: Node, kind: ModeKind) {
    exists i :: 0 <= i < |p.modes| && p.modes[i].name == name && p.modes[i].kind == kind
  }

  ghost predicate IsDimensionlessSignal(p: Program, name: string) {
    exists i :: 0 <= i < |p.signals| && p.signals[i].name == name && p.signals[i].unit == DIMENSIONLESS
  }

  ghost predicate DwellFits(p: Program, rule: TransitionRule) {
    exists i :: 0 <= i < |p.modes| && p.modes[i].name == rule.from
                && (p.modes[i].maxDwell.Some? ==> rule.minDwell <= p.modes[i].maxDwell.value)
  }

  ghost predicate WellFormedRule(p: Program, rule: TransitionRule) {
    && rule.guard.signal in SignalNames(p)
    && (rule.phaseTransfer.NormalizedPhase? ==> IsDimensionlessSignal(p, rule.phaseTransfer.signal))
    && IsEdge(p, rule)
    && rule.from != rule.to
    && DwellFits(p, rule)
    && (rule.kind.Recovery? <==> IsMode(p, rule.to, ModeKind.Recovery))
    && (rule.kind.Rejoin? <==> IsMode(p, rule.from, ModeKind.Recovery))
    && (rule.kind.Rejoin? ==> IsMode(p, rule.to, ModeKind.Task))
  }

  ghost predicate DistinctRules(p: Program) {
    forall i, j :: 0 <= i < j < |p.transitions| ==>
      && p.transitions[i].id != p.transitions[j].id
      && (p.transitions[i].from == p.transitions[j].from ==> p.transitions[i].priority != p.transitions[j].priority)
  }

  ghost predicate WellFormedRules(p: Program) {
    DistinctRules(p) && forall i :: 0 <= i < |p.transitions| ==> WellFormedRule(p, p.transitions[i])
  }

  ghost predicate WellFormedPaths(p: Program) {
    && !HasCycle(ZeroDwellEdges(p))
    && forall n :: n in Names(p) ==>
      && Joined(Edges(p), p.entry, n)
      && exists terminal :: IsMode(p, terminal, ModeKind.Terminal) && Joined(Edges(p), n, terminal)
  }

  /** Every recovery mode is entered by a recovery edge and left by a rejoin edge. */
  ghost predicate RecoveryEdgesPresent(p: Program) {
    forall i :: 0 <= i < |p.modes| && p.modes[i].kind.Recovery? ==>
      HasRecoveryEdge(p, p.modes[i].name) && HasRejoinEdge(p, p.modes[i].name)
  }

  /** All conditions except the two per-recovery-mode edge checks. */
  ghost predicate WellFormedCore(p: Program) {
    WellFormedHeader(p) && WellFormedModes(p) && WellFormedRules(p) && WellFormedPaths(p)
  }

  ghost predicate WellFormed(p: Program) {
    WellFormedCore(p) && RecoveryEdgesPresent(p)
  }

  // ----- The tables of a program with distinct names -----------------------------------

  lemma {:induction false} KindsLookup(modes: seq<ModeSpec>)
    ensures LastModeKinds(modes).Keys == set i | 0 <= i < |modes| :: modes[i].name
    ensures (forall i, j :: 0 <= i < j < |modes| ==> modes[i].name != modes[j].name) ==>
      forall i :: 0 <= i < |modes| ==> LastModeKinds(modes)[modes[i].name] == modes[i].kind
  {
    if modes != [] {
      KindsLookup(modes[..|modes| - 1]);
    }
  }

  lemma {:induction false} UnitsLookup(signals: seq<SignalSpec>)
    ensures LastSignalUnits(signals).Keys == set i | 0 <= i < |signals| :: signals[i].name
    ensures (forall i, j :: 0 <= i < j < |signals| ==> signals[i].name != signals[j].name) ==>
      forall i :: 0 <= i < |signals| ==> LastSignalUnits(signals)[signals[i].name] == signals[i].unit
  {
    if signals != [] {
      UnitsLookup(signals[..|signals| - 1]);
    }
  }

  lemma {:induction false} FirstModeLookup(modes: seq<ModeSpec>, name: Node)
    ensures FirstMode(modes, name).None? <==> forall i :: 0 <= i < |modes| ==> modes[i].name != name
    ensures FirstMode(modes, name).Some? ==>
      FirstMode(modes, name).value in modes && FirstMode(modes, name).value.name == name
  {
    if modes != [] && modes[0].name != name {
      FirstModeLookup(modes[1..], name);
      assert modes == [modes[0]] + modes[1..];
    }
  }

  lemma KindIsMode(p: Program, name: Node, kind: ModeKind)
    requires DistinctModeNames(p)
    ensures HasKind(p, name, kind) <==> IsMode(p, name, kind)
  {
    KindsLookup(p.modes);
  }
}
