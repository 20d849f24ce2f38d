/** The two graph algorithms of the oracle-program validator, proved against walks.
 *
 *  An adjacency maps a node to its successors; a node that is not a key has none,
 *  which is what `adjacency.get(node, set())` reads.
 */
module Digraph {

  type Node = string
  type Adjacency = map<Node, set<Node>>

  function Targets(adjacency: Adjacency, node: Node): set<Node> {
    if node in adjacency then adjacency[node] else {}
  }

  /** A walk is a nonempty node sequence that follows edges. */
  ghost predicate IsWalk(adjacency: Adjacency, w: seq<Node>) {
    |w| > 0 && forall i :: 0 <= i < |w| - 1 ==> w[i + 1] in Targets(adjacency, w[i])
  }

  ghost predicate IsWalkBetween(adjacency: Adjacency, w: seq<Node>, from: Node, to: Node) {
    IsWalk(adjacency, w) && w[0] == from && w[|w| - 1] == to
  }

  ghost predicate Joined(adjacency: Adjacency, from: Node, to: Node) {
    exists w :: IsWalkBetween(adjacency, w, from, to)
  }

  ghost predicate IsClosedWalk(adjacency: Adjacency, w: seq<Node>) {
    IsWalk(adjacency, w) && |w| >= 2 && w[0] == w[|w| - 1]
  }

  ghost predicate HasCycle(adjacency: Adjacency) {
    exists w :: IsClosedWalk(adjacency, w)
  }

  ghost function Nodes(adjacency: Adjacency): set<Node> {
    adjacency.Keys + set k, t | k in adjacency && t in adjacency[k] :: t
  }

  ghost predicate ClosedUnder(adjacency: Adjacency, s: set<Node>) {
    forall n :: n in s ==> Targets(adjacency, n) <= s
  }

  // ----- Walks --------------------------------------------------------------

  lemma JoinedRefl(adjacency: Adjacency, n: Node)
    ensures Joined(adjacency, n, n)
  {
    assert IsWalkBetween(adjacency, [n], n, n);
  }

  lemma JoinedStep(adjacency: Adjacency, from: Node, mid: Node, to: Node)
    requires Joined(adjacency, from, mid) && to in Targets(adjacency, mid)
    ensures Joined(adjacency, from, to)
  {
    var w :| IsWalkBetween(adjacency, w, from, mid);
    assert IsWalkBetween(adjacency, w + [to], from, to);
  }

  /** A walk that starts in a set closed under successors never leaves it. */
  lemma {:induction false} WalkStaysInside(adjacency: Adjacency, s: set<Node>, w: seq<Node>, i: nat)
    requires ClosedUnder(adjacency, s) && IsWalk(adjacency, w) && w[0] in s && i < |w|
    ensures w[i] in s
  {
    if i > 0 {
      WalkStaysInside(adjacency, s, w, i - 1);
    }
  }

  lemma JoinedStaysInside(adjacency: Adjacency, s: set<Node>, from: Node, to: Node)
    requires ClosedUnder(adjacency, s) && from in s && Joined(adjacency, from, to)
    ensures to in s
  {
    var w :| IsWalkBetween(adjacency, w, from, to);
    WalkStaysInside(adjacency, s, w, |w| - 1);
  }

  // ----- Worklist reachability ------------------------------------------------

  /** The worklist returns exactly the nodes joined to `start` by some walk. */
  method PathReachable(start: Node, adjacency: Adjacency) returns (seen: set<Node>)
    ensures forall n :: n in seen <==> Joined(adjacency, start, n)
  {
    seen := {start};
    var frontier := [start];
    JoinedRefl(adjacency, start);
    ghost var universe := Nodes(adjacency) + {start};
    while frontier != []
      invariant start in seen && seen <= universe
      invariant forall n :: n in frontier ==> n in seen
      invariant forall n :: n in seen ==> Joined(adjacency, start, n)
      invariant forall n :: n in seen && n !in frontier ==> Targets(adjacency, n) <= seen
      decreases universe - seen, |frontier|
    {
      var current := frontier[|frontier| - 1];
      frontier := frontier[..|frontier| - 1];
      var pending := Targets(adjacency, current);
      ghost var seenBefore, frontierBefore := seen, frontier;
      while pending != {}
        invariant start in seen && seenBefore <= seen <= universe
        invariant pending <= Targets(adjacency, current)
        invariant Targets(adjacency, current) - pending <= seen
        invariant frontierBefore <= frontier
        invariant seen == seenBefore ==> frontier == frontierBefore
        invariant forall n :: n in frontier ==> n in seen
        invariant forall n :: n in seen ==> Joined(adjacency, start, n)
        invariant forall n :: n in seen && n !in frontier && n != current ==> Targets(adjacency, n) <= seen
        decreases pending
      {
        var target :| target in pending;
        pending := pending - {target};
        if target !in seen {
          JoinedStep(adjacency, start, current, target);
          seen := seen + {target};
          frontier := frontier + [target];
        }
      }
    }
    forall n | Joined(adjacency, start, n)
      ensures n in seen
    {
      JoinedStaysInside(adjacency, seen, start, n);
    }
  }

  // ----- Depth-first cycle search ---------------------------------------------

  /** No closed walk starts in `s`. */
  ghost predicate NoCycleThrough(adjacency: Adjacency, s: set<Node>) {
    forall w :: IsClosedWalk(adjacency, w) ==> w[0] !in s
  }

  lemma ClosedWalksStartAtKeys(adjacency: Adjacency)
    ensures forall w :: IsClosedWalk(adjacency, w) ==> w[0] in adjacency.Keys
  {
    forall w | IsClosedWalk(adjacency, w)
      ensures w[0] in adjacency.Keys
    {
      assert w[1] in Targets(adjacency, w[0]);
    }
  }

  /** Finishing a node whose successors are all finished keeps the finished set acyclic. */
  lemma FinishNode(adjacency: Adjacency, finished: set<Node>, n: Node)
    requires ClosedUnder(adjacency, finished) && NoCycleThrough(adjacency, finished)
    requires n !in finished && Targets(adjacency, n) <= finished
    ensures ClosedUnder(adjacency, finished + {n}) && NoCycleThrough(adjacency, finished + {n})
  {
    forall w | IsClosedWalk(adjacency, w)
      ensures w[0] !in finished + {n}
    {
      if w[0] == n {
        assert w[1] in finished;
        assert IsWalk(adjacency, w[1..]) && w[1..][|w| - 2] == w[|w| - 1];
        WalkStaysInside(adjacency, finished, w[1..], |w| - 2);
      }
    }
  }

  /** The nodes on the recursion stack, as the walk the recursion followed. */
  ghost predicate IsStack(adjacency: Adjacency, path: seq<Node>, active: set<Node>, next: Node) {
    && (forall n :: n in path <==> n in active)
    && (path != [] ==> IsWalk(adjacency, path) && next in Targets(adjacency, path[|path| - 1]))
  }

  lemma BackEdgeClosesWalk(adjacency: Adjacency, path: seq<Node>, active: set<Node>, node: Node)
    requires IsStack(adjacency, path, active, node) && node in active
    ensures HasCycle(adjacency)
  {
    var i :| 0 <= i < |path| && path[i] == node;
    assert IsClosedWalk(adjacency, path[i..] + [node]);
  }

  /** The nested `visit` function with the two sets it shares across roots. */
  class CycleSearch {
    const adjacency: Adjacency
    var visited: set<Node>
    var active: set<Node>

    ghost predicate Valid()
      reads this
    {
      && active <= visited <= Nodes(adjacency)
      && ClosedUnder(adjacency, visited - active)
      && NoCycleThrough(adjacency, visited - active)
    }

    constructor (adjacency: Adjacency)
      ensures Valid() && this.adjacency == adjacency && visited == {} && active == {}
    {
      this.adjacency := adjacency;
      visited, active := {}, {};
    }

    method Visit(node: Node, ghost path: seq<Node>) returns (found: bool)
      requires Valid() && node in Nodes(adjacency)
      requires IsStack(adjacency, path, active, node)
      modifies this
      ensures found ==> HasCycle(adjacency)
      ensures !found ==> Valid() && active == old(active) && old(visited) <= visited && node in visited - active
      decreases Nodes(adjacency) - visited
    {
      if node in active {
        BackEdgeClosesWalk(adjacency, path, active, node);
        return true;
      }
      if node in visited {
        return false;
      }
      ghost var finished := visited - active;
      visited := visited + {node};
      active := active + {node};
      assert visited - active == finished;
      ghost var before := visited;
      var pending := Targets(adjacency, node);
      while pending != {}
        invariant Valid() && active == old(active) + {node} && before <= visited
        invariant pending <= Targets(adjacency, node)
        invariant Targets(adjacency, node) - pending <= visited - active
        decreases pending
      {
        var target :| target in pending;
        pending := pending - {target};
        assert IsWalk(adjacency, path + [node]);
        ghost var done := visited - active;
        found := Visit(target, path + [node]);
        if found {
          return;
        }
        assert done <= visited - active;
      }
      FinishNode(adjacency, visited - active, node);
      assert visited - (active - {node}) == (visited - active) + {node};
      active := active - {node};
      found := false;
    }
  }

  /** True exactly when the graph has a nonempty directed cycle. */
  method HasDirectedCycle(adjacency: Adjacency) returns (found: bool)
    ensures found <==> HasCycle(adjacency)
  {
    var search := new CycleSearch(adjacency);
    var roots := adjacency.Keys;
    while roots != {}
      invariant search.adjacency == adjacency && search.Valid() && search.active == {}
      invariant roots <= adjacency.Keys && adjacency.Keys - roots <= search.visited
      invariant fresh(search)
      decreases roots
    {
      var node :| node in roots;
      roots := roots - {node};
      found := search.Visit(node, []);
      if found {
        return;
      }
    }
    assert search.visited - search.active == search.visited;
    ClosedWalksStartAtKeys(adjacency);
    found := false;
  }

  // ----- Reversal ------------------------------------------------------------

  ghost predicate IsReverse(adjacency: Adjacency, reverse: Adjacency) {
    forall a, b :: b in Targets(adjacency, a) <==> a in Targets(reverse, b)
  }

  lemma JoinedBackwards(adjacency: Adjacency, reverse: Adjacency, from: Node, to: Node)
    requires IsReverse(adjacency, reverse) && Joined(adjacency, from, to)
    ensures Joined(reverse, to, from)
  {
    var w :| IsWalkBetween(adjacency, w, from, to);
    var back := seq(|w|, i requires 0 <= i < |w| => w[|w| - 1 - i]);
    forall i | 0 <= i < |back| - 1
      ensures back[i + 1] in Targets(reverse, back[i])
    {
      var k := |w| - 2 - i;
      assert w[k + 1] in Targets(adjacency, w[k]);
    }
    assert IsWalkBetween(reverse, back, to, from);
  }

  /** Reaching backwards over the reversed edges is reaching forwards over the edges. */
  lemma JoinedReverse(adjacency: Adjacency, reverse: Adjacency, from: Node, to: Node)
    requires IsReverse(adjacency, reverse)
    ensures Joined(adjacency, from, to) <==> Joined(reverse, to, from)
  {
    if Joined(adjacency, from, to) {
      JoinedBackwards(adjacency, reverse, from, to);
    }
    if Joined(reverse, to, from) {
      assert IsReverse(reverse, adjacency);
      JoinedBackwards(reverse, adjacency, to, from);
    }
  }

  // ----- Bounds on acyclic walks ---------------------------------------------

  ghost function ElementsOf(w: seq<Node>): set<Node> {
    set n | n in w
  }

  lemma {:induction false} DistinctSize(w: seq<Node>)
    requires forall i, j :: 0 <= i < j < |w| ==> w[i] != w[j]
    ensures |ElementsOf(w)| == |w|
  {
    if w == [] {
      assert ElementsOf(w) == {};
    } else {
      var front, last := w[..|w| - 1], w[|w| - 1];
      DistinctSize(front);
      assert ElementsOf(w) == ElementsOf(front) + {last};
    }
  }

  lemma {:induction false} SubsetSize<T>(small: set<T>, large: set<T>)
    requires small <= large
    ensures |small| <= |large|
  {
    if small != {} {
      var x :| x in small;
      SubsetSize(small - {x}, large - {x});
    }
  }

  /** In an acyclic graph no walk has more nodes than the set it stays in. */
  lemma AcyclicWalkLength(adjacency: Adjacency, w: seq<Node>, nodes: set<Node>)
    requires !HasCycle(adjacency) && IsWalk(adjacency, w)
    requires forall i :: 0 <= i < |w| ==> w[i] in nodes
    ensures |w| <= |nodes|
  {
    forall i, j | 0 <= i < j < |w|
      ensures w[i] != w[j]
    {
      if w[i] == w[j] {
        assert IsClosedWalk(adjacency, w[i..j + 1]);
      }
    }
    DistinctSize(w);
    SubsetSize(ElementsOf(w), nodes);
  }
}
