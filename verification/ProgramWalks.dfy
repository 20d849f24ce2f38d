/** What acceptance by the validator means for every walk of an accepted program. */
module ProgramWalks {
  import opened Arithmetic
  import opened Wrappers
  import opened Digraph
  import opened OracleProgram
  import opened ScalarGuards

  /** Consecutive rules of the program, the first one leaving `from`. */
  ghost predicate IsRuleWalk(p: Program, from: Node, rules: seq<TransitionRule>) {
    && (forall i :: 0 <= i < |rules| ==> rules[i] in p.transitions)
    && (rules != [] ==> rules[0].from == from)
    && (forall i :: 0 <= i < |rules| - 1 ==> rules[i + 1].from == rules[i].to)
  }

  ghost function EndOf(from: Node, rules: seq<TransitionRule>): Node {
    if rules == [] then from else rules[|rules| - 1].to
  }

  lemma RuleIsWellFormed(p: Program, rule: TransitionRule)
    requires WellFormedRules(p) && rule in p.transitions
    ensures WellFormedRule(p, rule)
  {
    var i :| 0 <= i < |p.transitions| && p.transitions[i] == rule;
    assert WellFormedRule(p, p.transitions[i]);
  }

  // ----- Zero-dwell stretches ---------------------------------------------------

  ghost function Visited(from: Node, rules: seq<TransitionRule>): seq<Node> {
    [from] + seq(|rules|, i requires 0 <= i < |rules| => rules[i].to)
  }

  lemma {:induction false} NamesAreFew(modes: seq<ModeSpec>)
    ensures |set i | 0 <= i < |modes| :: modes[i].name| <= |modes|
  {
    if modes != [] {
      var front := modes[..|modes| - 1];
      NamesAreFew(front);
      assert (set i | 0 <= i < |modes| :: modes[i].name)
          == (set i | 0 <= i < |front| :: front[i].name) + {modes[|modes| - 1].name};
    }
  }

  lemma VisitedWalksZeroDwell(p: Program, from: Node, rules: seq<TransitionRule>)
    requires WellFormedRules(p) && from in Names(p) && IsRuleWalk(p, from, rules)
    requires forall i :: 0 <= i < |rules| ==> rules[i].minDwell == 0
    ensures IsWalk(ZeroDwellEdges(p), Visited(from, rules))
    ensures forall i :: 0 <= i <= |rules| ==> Visited(from, rules)[i] in Names(p)
  {
  }

  /** Consecutive zero-dwell rules of an accepted program are fewer than its modes. */
  lemma ZeroDwellStretchIsShort(p: Program, from: Node, rules: seq<TransitionRule>)
    requires WellFormed(p) && from in Names(p) && IsRuleWalk(p, from, rules)
    requires forall i :: 0 <= i < |rules| ==> rules[i].minDwell == 0
    ensures |rules| < |p.modes|
  {
    ZeroDwellStretch(p, from, rules);
  }

  lemma ZeroDwellStretch(p: Program, from: Node, rules: seq<TransitionRule>)
    requires WellFormedRules(p) && !HasCycle(ZeroDwellEdges(p))
    requires from in Names(p) && IsRuleWalk(p, from, rules)
    requires forall i :: 0 <= i < |rules| ==> rules[i].minDwell == 0
    ensures |rules| < |p.modes|
  {
    VisitedWalksZeroDwell(p, from, rules);
    AcyclicWalkLength(ZeroDwellEdges(p), Visited(from, rules), Names(p));
    NamesAreFew(p.modes);
  }

  ghost function DwellSum(rules: seq<TransitionRule>): nat {
    if rules == [] then 0 else rules[0].minDwell + DwellSum(rules[1..])
  }

  lemma {:induction false} DwellSumSplit(rules: seq<TransitionRule>, k: nat)
    requires k <= |rules|
    ensures DwellSum(rules) == DwellSum(rules[..k]) + DwellSum(rules[k..])
  {
    if k == 0 {
      assert rules[k..] == rules;
    } else {
      DwellSumSplit(rules[1..], k - 1);
      assert rules[1..][..k - 1] == rules[..k][1..];
      assert rules[1..][k - 1..] == rules[k..];
    }
  }

  lemma {:induction false} ZeroSumMeansZeroDwell(rules: seq<TransitionRule>)
    requires DwellSum(rules) == 0
    ensures forall i :: 0 <= i < |rules| ==> rules[i].minDwell == 0
  {
    if rules != [] {
      ZeroSumMeansZeroDwell(rules[1..]);
      assert rules == [rules[0]] + rules[1..];
    }
  }

  lemma {:induction false} TimesGrows(low: nat, high: nat, m: nat)
    requires low <= high
    ensures Times(low, m) <= Times(high, m)
  {
    if low < high {
      TimesGrows(low, high - 1, m);
    }
  }

  lemma {:induction false} TimesBoundsQuotient(n: nat, m: nat, d: nat)
    requires m > 0 && Times(d + 1, m) > n
    ensures d >= n / m
  {
    if n >= m {
      assert Times(d + 1, m) == Times(d, m) + m;
      assert d > 0;
      TimesBoundsQuotient(n - m, m, d - 1);
      QuotientStep(n, m);
    } else {
      assert n / m == 0;
    }
  }

  lemma QuotientStep(n: nat, m: nat)
    requires 0 < m <= n
    ensures n / m == (n - m) / m + 1
  {
    var q, q' := n / m, (n - m) / m;
    assert q * m <= n < q * m + m;
    assert q' * m <= n - m < q' * m + m;
    ProductOrder(q, q' + 2, m);
    ProductOrder(q' + 1, q + 1, m);
  }

  lemma ProductOrder(a: nat, b: nat, m: nat)
    requires m > 0
    ensures a * m < b * m <==> a < b
  {
    if a < b {
      assert b * m == a * m + (b - a) * m;
    } else {
      assert a * m == b * m + (a - b) * m;
    }
  }

  ghost predicate DwellsInBlock(rules: seq<TransitionRule>, m: nat, k: nat) {
    k + m <= |rules| && DwellSum(rules[k..k + m]) > 0
  }

  /** If every block of m consecutive rules declares some dwell, the sum pays for all blocks. */
  lemma {:induction false} BlocksPay(rules: seq<TransitionRule>, m: nat)
    requires m > 0
    requires forall k: nat :: k + m <= |rules| ==> DwellsInBlock(rules, m, k)
    ensures Times(DwellSum(rules) + 1, m) > |rules|
    decreases |rules|
  {
    if |rules| < m {
      TimesGrows(1, DwellSum(rules) + 1, m);
      assert Times(1, m) == m;
    } else {
      var rest := rules[m..];
      forall k: nat | k + m <= |rest|
        ensures DwellsInBlock(rest, m, k)
      {
        assert DwellsInBlock(rules, m, m + k);
        assert rest[k..k + m] == rules[m + k..m + k + m];
      }
      BlocksPay(rest, m);
      assert DwellsInBlock(rules, m, 0) && rules[0..0 + m] == rules[..m];
      DwellSumSplit(rules, m);
      TimesGrows(DwellSum(rest) + 2, DwellSum(rules) + 1, m);
    }
  }

  lemma {:induction false} BlockDeclaresDwell(p: Program, from: Node, rules: seq<TransitionRule>, k: nat)
    requires WellFormedRules(p) && !HasCycle(ZeroDwellEdges(p))
    requires from in Names(p) && IsRuleWalk(p, from, rules) && k + |p.modes| <= |rules| && p.modes != []
    ensures DwellsInBlock(rules, |p.modes|, k)
  {
    var block := rules[k..k + |p.modes|];
    if DwellSum(block) == 0 {
      ZeroSumMeansZeroDwell(block);
      RuleIsWellFormed(p, rules[k]);
      assert block[0] == rules[k];
      ZeroDwellStretch(p, rules[k].from, block);
    }
  }

  lemma {:induction false} WalkPaysForBlocks(p: Program, from: Node, rules: seq<TransitionRule>)
    requires WellFormedRules(p) && !HasCycle(ZeroDwellEdges(p)) && p.modes != []
    requires from in Names(p) && IsRuleWalk(p, from, rules)
    ensures Times(DwellSum(rules) + 1, |p.modes|) > |rules|
  {
    forall k: nat | k + |p.modes| <= |rules|
      ensures DwellsInBlock(rules, |p.modes|, k)
    {
      BlockDeclaresDwell(p, from, rules, k);
    }
    BlocksPay(rules, |p.modes|);
  }

  /** A walk of n rules declares a minimum dwell of at least floor(n / number of modes). */
  lemma {:induction false} DwellGrowsAlongWalks(p: Program, from: Node, rules: seq<TransitionRule>)
    requires WellFormed(p) && from in Names(p) && IsRuleWalk(p, from, rules)
    ensures DwellSum(rules) >= |rules| / |p.modes|
  {
    assert Times(DwellSum(rules) + 1, |p.modes|) > |rules| by {
      WalkPaysForBlocks(p, from, rules);
    }
    TimesBoundsQuotient(|rules|, |p.modes|, DwellSum(rules));
  }

  // ----- Recovery and rejoin edges ------------------------------------------------

  ghost function CountKind(rules: seq<TransitionRule>, kind: TransitionKind): nat {
    if rules == [] then 0
    else CountKind(rules[..|rules| - 1], kind) + if rules[|rules| - 1].kind == kind then 1 else 0
  }

  /** Along every walk that starts outside recovery, recoveries and rejoins balance. */
  lemma {:induction false} RecoveriesBalance(p: Program, from: Node, rules: seq<TransitionRule>)
    requires WellFormed(p) && IsRuleWalk(p, from, rules) && !IsMode(p, from, ModeKind.Recovery)
    ensures CountKind(rules, TransitionKind.Recovery)
         == CountKind(rules, TransitionKind.Rejoin)
            + if IsMode(p, EndOf(from, rules), ModeKind.Recovery) then 1 else 0
  {
    if rules != [] {
      var last := rules[|rules| - 1];
      RecoveriesBalance(p, from, rules[..|rules| - 1]);
      RuleIsWellFormed(p, last);
      assert last.from == EndOf(from, rules[..|rules| - 1]);
      RejoinIsNotRecovery(p, last);
    }
  }

  /** No edge of an accepted program joins two recovery modes. */
  lemma RejoinIsNotRecovery(p: Program, rule: TransitionRule)
    requires WellFormed(p) && rule in p.transitions
    ensures !(IsMode(p, rule.from, ModeKind.Recovery) && IsMode(p, rule.to, ModeKind.Recovery))
  {
    RuleIsWellFormed(p, rule);
    if IsMode(p, rule.from, ModeKind.Recovery) {
      KindIsMode(p, rule.to, ModeKind.Task);
      KindIsMode(p, rule.to, ModeKind.Recovery);
    }
  }

  /** From the entry mode: the instance of the balance a run of the program is about. */
  lemma RecoveriesBalanceFromEntry(p: Program, rules: seq<TransitionRule>)
    requires WellFormed(p) && IsRuleWalk(p, p.entry, rules)
    ensures CountKind(rules, TransitionKind.Recovery)
         == CountKind(rules, TransitionKind.Rejoin)
            + if IsMode(p, EndOf(p.entry, rules), ModeKind.Recovery) then 1 else 0
    ensures forall i :: 0 <= i < |rules| ==>
      !(IsMode(p, rules[i].from, ModeKind.Recovery) && IsMode(p, rules[i].to, ModeKind.Recovery))
  {
    EntryIsNotRecovery(p);
    RecoveriesBalance(p, p.entry, rules);
    forall i | 0 <= i < |rules|
      ensures !(IsMode(p, rules[i].from, ModeKind.Recovery) && IsMode(p, rules[i].to, ModeKind.Recovery))
    {
      RejoinIsNotRecovery(p, rules[i]);
    }
  }

  lemma EnteredByRecovery(p: Program, name: Node)
    requires WellFormedRules(p) && IsMode(p, name, ModeKind.Recovery) && !IsMode(p, p.entry, ModeKind.Recovery)
    requires Joined(Edges(p), p.entry, name)
    ensures HasRecoveryEdge(p, name)
  {
    var w :| IsWalkBetween(Edges(p), w, p.entry, name);
    assert |w| >= 2;
    var i, before := |w| - 2, w[|w| - 2];
    assert w[i + 1] in Targets(Edges(p), before);
    assert EdgeBetween(p, |p.transitions|, false, before, name);
    var k :| 0 <= k < |p.transitions| && p.transitions[k].from == before && p.transitions[k].to == name;
    assert WellFormedRule(p, p.transitions[k]);
  }

  lemma LeftByRejoin(p: Program, name: Node)
    requires WellFormedRules(p) && IsMode(p, name, ModeKind.Recovery) && HasOutgoing(p, name)
    ensures HasRejoinEdge(p, name)
  {
    var k :| 0 <= k < |p.transitions| && p.transitions[k].from == name && IsEdge(p, p.transitions[k]);
    assert WellFormedRule(p, p.transitions[k]);
  }

  lemma EntryIsNotRecovery(p: Program)
    requires WellFormedModes(p)
    ensures !IsMode(p, p.entry, ModeKind.Recovery)
  {
    KindIsMode(p, p.entry, ModeKind.Task);
    KindIsMode(p, p.entry, ModeKind.Recovery);
  }

  /** The per-recovery-mode edge checks never fire alone: reachability and the edge-kind
   *  rules already imply them. */
  lemma RecoveryEdgesFollow(p: Program)
    requires WellFormedCore(p)
    ensures RecoveryEdgesPresent(p)
  {
    EntryIsNotRecovery(p);
    forall i | 0 <= i < |p.modes| && p.modes[i].kind.Recovery?
      ensures HasRecoveryEdge(p, p.modes[i].name) && HasRejoinEdge(p, p.modes[i].name)
    {
      var name := p.modes[i].name;
      assert name in Names(p) && IsMode(p, name, ModeKind.Recovery);
      EnteredByRecovery(p, name);
      LeftByRejoin(p, name);
    }
  }

  // ----- Deterministic dispatch -----------------------------------------------------

  /** A stable insertion by priority: equal priorities keep their order. */
  function Insert(rule: TransitionRule, sorted: seq<TransitionRule>): seq<TransitionRule> {
    if sorted == [] || rule.priority <= sorted[0].priority then [rule] + sorted
    else [sorted[0]] + Insert(rule, sorted[1..])
  }

  /** The rules leaving a mode, lower priority first. */
  function Outgoing(transitions: seq<TransitionRule>, name: Node): seq<TransitionRule> {
    if transitions == [] then []
    else
      var rest := Outgoing(transitions[1..], name);
      if transitions[0].from == name then Insert(transitions[0], rest) else rest
  }

  ghost predicate SortedByPriority(rules: seq<TransitionRule>) {
    forall i, j :: 0 <= i < j < |rules| ==> rules[i].priority <= rules[j].priority
  }

  lemma {:induction false} InsertKeepsRules(rule: TransitionRule, sorted: seq<TransitionRule>)
    ensures multiset(Insert(rule, sorted)) == multiset(sorted) + multiset{rule}
  {
    if sorted != [] && rule.priority > sorted[0].priority {
      InsertKeepsRules(rule, sorted[1..]);
      assert sorted == [sorted[0]] + sorted[1..];
    }
  }

  lemma ConsSorts(first: TransitionRule, rest: seq<TransitionRule>)
    requires SortedByPriority(rest) && (rest != [] ==> first.priority <= rest[0].priority)
    ensures SortedByPriority([first] + rest)
  {
  }

  lemma {:induction false} InsertSorts(rule: TransitionRule, sorted: seq<TransitionRule>)
    requires SortedByPriority(sorted)
    ensures SortedByPriority(Insert(rule, sorted)) && Insert(rule, sorted) != []
    ensures Insert(rule, sorted)[0] == rule || (sorted != [] && Insert(rule, sorted)[0] == sorted[0])
  {
    if sorted != [] && rule.priority > sorted[0].priority {
      InsertSorts(rule, sorted[1..]);
      ConsSorts(sorted[0], Insert(rule, sorted[1..]));
    } else {
      ConsSorts(rule, sorted);
    }
  }

  /** Dispatch order holds exactly the rules leaving the mode, by rising priority. */
  lemma {:induction false} OutgoingSorts(transitions: seq<TransitionRule>, name: Node)
    ensures SortedByPriority(Outgoing(transitions, name))
    ensures forall r ::
      multiset(Outgoing(transitions, name))[r] == if r.from == name then multiset(transitions)[r] else 0
  {
    if transitions != [] {
      OutgoingSorts(transitions[1..], name);
      assert transitions == [transitions[0]] + transitions[1..];
      InsertSorts(transitions[0], Outgoing(transitions[1..], name));
      InsertKeepsRules(transitions[0], Outgoing(transitions[1..], name));
    }
  }

  ghost function Leaving(transitions: seq<TransitionRule>, name: Node): seq<TransitionRule> {
    if transitions == [] then []
    else (if transitions[0].from == name then [transitions[0]] else []) + Leaving(transitions[1..], name)
  }

  ghost function OfPriority(rules: seq<TransitionRule>, priority: nat): seq<TransitionRule> {
    if rules == [] then []
    else (if rules[0].priority == priority then [rules[0]] else []) + OfPriority(rules[1..], priority)
  }

  lemma {:induction false} InsertIsStable(rule: TransitionRule, sorted: seq<TransitionRule>, priority: nat)
    ensures OfPriority(Insert(rule, sorted), priority) == OfPriority([rule] + sorted, priority)
  {
    assert ([rule] + sorted)[1..] == sorted;
    if sorted != [] && rule.priority > sorted[0].priority {
      InsertIsStable(rule, sorted[1..], priority);
      assert ([rule] + sorted[1..])[1..] == sorted[1..];
      assert ([sorted[0]] + Insert(rule, sorted[1..]))[1..] == Insert(rule, sorted[1..]);
    }
  }

  /** Rules of the same priority are dispatched in the order in which the program lists them. */
  lemma {:induction false} OutgoingIsStable(transitions: seq<TransitionRule>, name: Node, priority: nat)
    ensures OfPriority(Outgoing(transitions, name), priority) == OfPriority(Leaving(transitions, name), priority)
  {
    if transitions != [] {
      OutgoingIsStable(transitions[1..], name, priority);
      if transitions[0].from == name {
        var rest := Leaving(transitions[1..], name);
        InsertIsStable(transitions[0], Outgoing(transitions[1..], name), priority);
        assert ([transitions[0]] + rest)[1..] == rest;
        assert ([transitions[0]] + Outgoing(transitions[1..], name))[1..] == Outgoing(transitions[1..], name);
      } else {
        assert Leaving(transitions, name) == Leaving(transitions[1..], name);
      }
    }
  }

  lemma {:induction false} DistinctRulesOccurOnce(transitions: seq<TransitionRule>, rule: TransitionRule)
    requires forall i, j :: 0 <= i < j < |transitions| ==> transitions[i].id != transitions[j].id
    ensures multiset(transitions)[rule] <= 1
  {
    if transitions != [] {
      DistinctRulesOccurOnce(transitions[1..], rule);
      assert transitions == [transitions[0]] + transitions[1..];
    }
  }

  lemma DistinctPriorities(p: Program, name: Node, i: nat, j: nat)
    requires DistinctRules(p) && i < j < |Outgoing(p.transitions, name)|
    ensures Outgoing(p.transitions, name)[i].priority != Outgoing(p.transitions, name)[j].priority
  {
    var rules := Outgoing(p.transitions, name);
    OutgoingSorts(p.transitions, name);
    assert rules[i] in multiset(rules) && rules[j] in multiset(rules);
    assert rules[i] in multiset(p.transitions) && rules[j] in multiset(p.transitions);
    if rules[i] == rules[j] {
      DistinctRulesOccurOnce(p.transitions, rules[i]);
      TwiceInMultiset(rules, i, j);
    }
    var a :| 0 <= a < |p.transitions| && p.transitions[a] == rules[i];
    var b :| 0 <= b < |p.transitions| && p.transitions[b] == rules[j];
  }

  /** In an accepted program no two rules compete: priorities rise strictly. */
  lemma DispatchIsDeterministic(p: Program, name: Node)
    requires WellFormed(p)
    ensures forall i, j :: 0 <= i < j < |Outgoing(p.transitions, name)| ==>
      Outgoing(p.transitions, name)[i].priority < Outgoing(p.transitions, name)[j].priority
  {
    OutgoingSorts(p.transitions, name);
    forall i, j | 0 <= i < j < |Outgoing(p.transitions, name)|
      ensures Outgoing(p.transitions, name)[i].priority < Outgoing(p.transitions, name)[j].priority
    {
      DistinctPriorities(p, name, i, j);
    }
  }

  lemma TwiceInMultiset(rules: seq<TransitionRule>, i: nat, j: nat)
    requires i < j < |rules| && rules[i] == rules[j]
    ensures multiset(rules)[rules[i]] >= 2
  {
    assert rules == rules[..i] + [rules[i]] + rules[i + 1..j] + [rules[j]] + rules[j + 1..];
  }

  // ----- An accepted program with recovery and a cycle ------------------------------------

  /** A task mode "a" that can recover through "r" any number of times before it ends in "b". */
  function Recovering(): Program {
    var guard := ScalarGuard("s", Ge, 0.0, 0.0);
    Program(
      "p", Some(1), "a",
      [ModeSpec("a", 0, 1, ModeKind.Task, Some(1)), ModeSpec("r", 0, 1, ModeKind.Recovery, Some(1)),
       ModeSpec("b", 0, 1, ModeKind.Terminal, None)],
      [TransitionRule("fall", "a", "r", guard, 0, ResetToStart, 1, TransitionKind.Recovery),
       TransitionRule("rise", "r", "a", guard, 0, ResetToStart, 0, TransitionKind.Rejoin),
       TransitionRule("end", "a", "b", guard, 1, ResetToStart, 0, TransitionKind.Advance)],
      [SignalSpec("s", DIMENSIONLESS)], 1, 1)
  }

  /** A program of that shape, with modes a, r and b. */
  ghost predicate IsRecovering(p: Program, a: Node, r: Node, b: Node) {
    && a != r && r != b && a != b && p.entry == a
    && IsIdentifier(p.programId) && p.referenceFrames == Some(1) && p.horizonSteps == p.maxQueries == 1
    && |p.signals| == 1 && |p.modes| == |p.transitions| == 3
    && p.modes[0] == ModeSpec(a, 0, 1, ModeKind.Task, Some(1))
    && p.modes[1] == ModeSpec(r, 0, 1, ModeKind.Recovery, Some(1))
    && p.modes[2] == ModeSpec(b, 0, 1, ModeKind.Terminal, None)
    && IsRule(p, p.transitions[0], a, r, 1, TransitionKind.Recovery)
    && IsRule(p, p.transitions[1], r, a, 0, TransitionKind.Rejoin)
    && IsRule(p, p.transitions[2], a, b, 0, TransitionKind.Advance)
    && p.transitions[0].priority != p.transitions[2].priority
    && p.transitions[0].id != p.transitions[1].id && p.transitions[0].id != p.transitions[2].id
    && p.transitions[1].id != p.transitions[2].id
  }

  ghost predicate IsRule(p: Program, rule: TransitionRule, from: Node, to: Node, minDwell: nat, kind: TransitionKind)
    requires |p.signals| == 1
  {
    && rule.from == from && rule.to == to && rule.minDwell == minDwell && rule.kind == kind
    && rule.guard.signal == p.signals[0].name && rule.phaseTransfer.ResetToStart?
  }

  lemma RecoveringNames(p: Program, a: Node, r: Node, b: Node)
    requires IsRecovering(p, a, r, b)
    ensures Names(p) == {a, r, b}
  {
    assert p.modes[0].name == a && p.modes[1].name == r && p.modes[2].name == b;
  }

  lemma RecoveringEdge(p: Program, a: Node, r: Node, b: Node, zeroDwellOnly: bool, from: Node, to: Node)
    requires IsRecovering(p, a, r, b)
    ensures EdgeBetween(p, 3, zeroDwellOnly, from, to)
      <==> (from == a && to == r && !zeroDwellOnly) || (from == r && to == a) || (from == a && to == b)
  {
    assert p.transitions[0].to == r && p.transitions[1].to == a && p.transitions[2].to == b;
  }

  lemma RecoveringEdges(p: Program, a: Node, r: Node, b: Node, zeroDwellOnly: bool)
    requires IsRecovering(p, a, r, b)
    ensures EdgesUpTo(p, 3, zeroDwellOnly) == map[a := if zeroDwellOnly then {b} else {r, b}, r := {a}, b := {}]
  {
    RecoveringNames(p, a, r, b);
    forall from, to
      ensures EdgeBetween(p, 3, zeroDwellOnly, from, to)
        <==> (from == a && to == r && !zeroDwellOnly) || (from == r && to == a) || (from == a && to == b)
    {
      RecoveringEdge(p, a, r, b, zeroDwellOnly, from, to);
    }
    var edges := EdgesUpTo(p, 3, zeroDwellOnly);
    assert edges[a] == if zeroDwellOnly then {b} else {r, b};
    assert edges[r] == {a};
    assert edges[b] == {};
  }

  /** The order in which zero-dwell rules can be taken. */
  function Rank(a: Node, r: Node, name: Node): nat {
    if name == r then 0 else if name == a then 1 else 2
  }

  lemma {:induction false} ZeroDwellRanks(a: Node, r: Node, b: Node, edges: Adjacency, w: seq<Node>, i: nat)
    requires a != r && r != b && a != b && edges == map[a := {b}, r := {a}, b := {}]
    requires IsWalk(edges, w) && i < |w|
    ensures Rank(a, r, w[i]) >= Rank(a, r, w[0]) + i
  {
    if i > 0 {
      ZeroDwellRanks(a, r, b, edges, w, i - 1);
      assert w[i - 1 + 1] in Targets(edges, w[i - 1]);
    }
  }

  lemma ZeroDwellAcyclic(a: Node, r: Node, b: Node, edges: Adjacency)
    requires a != r && r != b && a != b && edges == map[a := {b}, r := {a}, b := {}]
    ensures !HasCycle(edges)
  {
    forall w | IsWalk(edges, w) && |w| >= 2
      ensures w[0] != w[|w| - 1]
    {
      ZeroDwellRanks(a, r, b, edges, w, |w| - 1);
    }
  }

  lemma RecoveringPaths(p: Program, a: Node, r: Node, b: Node)
    requires IsRecovering(p, a, r, b)
    ensures WellFormedPaths(p)
  {
    RecoveringNames(p, a, r, b);
    RecoveringEdges(p, a, r, b, true);
    ZeroDwellAcyclic(a, r, b, ZeroDwellEdges(p));
    RecoveringReaches(p, a, r, b);
  }

  lemma RecoveringReaches(p: Program, a: Node, r: Node, b: Node)
    requires IsRecovering(p, a, r, b)
    ensures IsMode(p, b, ModeKind.Terminal) && IsClosedWalk(Edges(p), [a, r, a])
    ensures forall n :: n in {a, r, b} ==> Joined(Edges(p), a, n) && Joined(Edges(p), n, b)
  {
    RecoveringEdges(p, a, r, b, false);
    var edges := Edges(p);
    assert IsWalkBetween(edges, [a], a, a) && IsWalkBetween(edges, [b], b, b);
    assert IsWalkBetween(edges, [a, r], a, r) && IsWalkBetween(edges, [a, b], a, b);
    assert IsWalkBetween(edges, [r, a, b], r, b);
    assert p.modes[2].name == b;
  }

  lemma RecoveringOutgoing(p: Program, a: Node, r: Node, b: Node)
    requires IsRecovering(p, a, r, b)
    ensures HasOutgoing(p, a) && HasOutgoing(p, r) && !HasOutgoing(p, b)
  {
    RecoveringNames(p, a, r, b);
    assert IsEdge(p, p.transitions[0]) && IsEdge(p, p.transitions[1]);
  }

  lemma RecoveringModes(p: Program, a: Node, r: Node, b: Node)
    requires IsRecovering(p, a, r, b)
    ensures WellFormedHeader(p) && WellFormedModes(p)
  {
    RecoveringOutgoing(p, a, r, b);
    assert p.modes[0].name == a && p.modes[0].kind.Task? && p.modes[2].kind.Terminal?;
  }

  lemma RecoveringKinds(p: Program, a: Node, r: Node, b: Node)
    requires IsRecovering(p, a, r, b)
    ensures IsMode(p, r, ModeKind.Recovery) && IsMode(p, a, ModeKind.Task)
    ensures !IsMode(p, a, ModeKind.Recovery) && !IsMode(p, b, ModeKind.Recovery)
    ensures forall rule :: rule in p.transitions ==> DwellFits(p, rule)
  {
    assert p.modes[0].name == a && p.modes[1].name == r && p.modes[2].name == b;
  }

  lemma RecoveringRule(p: Program, a: Node, r: Node, b: Node, i: nat)
    requires IsRecovering(p, a, r, b) && i < 3
    ensures WellFormedRule(p, p.transitions[i])
  {
    RecoveringNames(p, a, r, b);
    RecoveringKinds(p, a, r, b);
    assert p.signals[0].name in SignalNames(p);
    assert p.transitions[i] in p.transitions;
  }

  /** The loop through recovery, n rules long. */
  function RecoveryLoop(p: Program, n: nat): seq<TransitionRule>
    requires |p.transitions| == 3
  {
    seq(n, i requires 0 <= i < n => p.transitions[i % 2])
  }

  lemma LoopIsWalk(p: Program, a: Node, r: Node, b: Node, n: nat)
    requires IsRecovering(p, a, r, b)
    ensures IsRuleWalk(p, p.entry, RecoveryLoop(p, n))
  {
  }

  lemma RecoveringRules(p: Program, a: Node, r: Node, b: Node)
    requires IsRecovering(p, a, r, b)
    ensures WellFormedRules(p)
  {
    forall i | 0 <= i < |p.transitions|
      ensures WellFormedRule(p, p.transitions[i])
    {
      RecoveringRule(p, a, r, b, i);
    }
  }

  lemma RecoveringIsWellFormed(p: Program, a: Node, r: Node, b: Node)
    requires IsRecovering(p, a, r, b)
    ensures WellFormed(p)
  {
    assert WellFormedCore(p) by {
      RecoveringPaths(p, a, r, b);
      RecoveringModes(p, a, r, b);
      RecoveringRules(p, a, r, b);
    }
    RecoveryEdgesFollow(p);
  }

  /** The program is accepted, its recovery mode lies on a cycle, and it has walks of every length. */
  lemma RecoveringIsAccepted(p: Program, a: Node, r: Node, b: Node, n: nat)
    requires IsRecovering(p, a, r, b)
    ensures WellFormed(p) && IsMode(p, r, ModeKind.Recovery) && IsClosedWalk(Edges(p), [a, r, a])
    ensures |RecoveryLoop(p, n)| == n && IsRuleWalk(p, p.entry, RecoveryLoop(p, n))
  {
    assert WellFormed(p) by {
      RecoveringIsWellFormed(p, a, r, b);
    }
    assert IsMode(p, r, ModeKind.Recovery) by {
      RecoveringKinds(p, a, r, b);
    }
    assert IsClosedWalk(Edges(p), [a, r, a]) by {
      RecoveringReaches(p, a, r, b);
    }
    LoopIsWalk(p, a, r, b, n);
  }

  lemma RecoveringExists()
    ensures IsRecovering(Recovering(), "a", "r", "b")
  {
  }
}
