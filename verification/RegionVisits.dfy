/** Visits of the physical region: how Study 017 splits and encodes them, how Study 015
 *  counts them, and that the two agree. */
module RegionVisits {
  import opened Wrappers

  datatype VisitError = RegionDiffers | FlagDiffers | SummaryDiffers

  /** A frame's progress and its recorded region flag. */
  datatype Frame = Frame(progress: real, insideFlag: bool, mode: string)

  /** The objective's own summary of the region. */
  datatype Summary = Summary(
    insideCount: int, entryObserved: bool, firstEntryStep: Option<int>,
    exitObserved: bool, firstExitStep: Option<int>)

  datatype Span = Span(first: int, last: int)

  datatype Visits = Visits(
    firstEntry: Option<nat>, firstExit: Option<nat>,
    firstVisit: seq<int>, laterVisits: seq<int>, allVisits: seq<int>, afterReentries: seq<int>,
    firstSpans: seq<Span>, laterSpans: seq<Span>)

  predicate Inside(entry: real, exit: real, value: real) {
    entry <= value < exit
  }

  function InsideFlags(entry: real, exit: real, progress: seq<real>): seq<bool> {
    seq(|progress|, i requires 0 <= i < |progress| => Inside(entry, exit, progress[i]))
  }

  // ----- Comprehensions over indices -------------------------------------------------

  ghost predicate Increasing(indices: seq<int>) {
    forall i, j :: 0 <= i < j < |indices| ==> indices[i] < indices[j]
  }

  /** The indices at which a flag is set, in order. */
  function TrueIndices(flags: seq<bool>): (indices: seq<nat>)
    ensures forall i :: i in indices <==> 0 <= i < |flags| && flags[i]
    ensures Increasing(indices)
  {
    if flags == [] then []
    else
      var last := |flags| - 1;
      var front := TrueIndices(flags[..last]);
      assert forall k :: 0 <= k < |front| ==> front[k] in front;
      if flags[last] then front + [last] else front
  }

  function CountTrue(flags: seq<bool>): nat {
    if flags == [] then 0 else CountTrue(flags[..|flags| - 1]) + if flags[|flags| - 1] then 1 else 0
  }

  /** The indices below a bound, and those from the bound on. */
  function Below(indices: seq<nat>, bound: nat): seq<nat> {
    if indices == [] then []
    else
      var front, last := indices[..|indices| - 1], indices[|indices| - 1];
      Below(front, bound) + if last < bound then [last] else []
  }

  function AtLeast(indices: seq<nat>, bound: nat): seq<nat> {
    if indices == [] then []
    else
      var front, last := indices[..|indices| - 1], indices[|indices| - 1];
      AtLeast(front, bound) + if last >= bound then [last] else []
  }

  lemma {:induction false} AllBelow(indices: seq<nat>, bound: nat)
    requires forall k :: 0 <= k < |indices| ==> indices[k] < bound
    ensures Below(indices, bound) == indices && AtLeast(indices, bound) == []
  {
    if indices != [] {
      AllBelow(indices[..|indices| - 1], bound);
    }
  }

  lemma {:induction false} CountIsLength(flags: seq<bool>)
    ensures CountTrue(flags) == |TrueIndices(flags)|
  {
    if flags != [] {
      CountIsLength(flags[..|flags| - 1]);
    }
  }

  lemma FirstIsLeast(indices: seq<nat>, x: nat)
    requires Increasing(indices) && x in indices
    ensures indices[0] <= x
  {
  }

  lemma {:induction false} SplitAtBound(indices: seq<nat>, bound: nat)
    requires Increasing(indices)
    ensures Below(indices, bound) + AtLeast(indices, bound) == indices
    ensures forall k :: 0 <= k < |Below(indices, bound)| ==> Below(indices, bound)[k] < bound
    ensures forall k :: 0 <= k < |AtLeast(indices, bound)| ==> AtLeast(indices, bound)[k] >= bound
  {
    if indices != [] {
      var front, last := indices[..|indices| - 1], indices[|indices| - 1];
      if last < bound {
        AllBelow(indices, bound);
      } else {
        SplitAtBound(front, bound);
        assert indices == front + [last];
        assert Below(indices, bound) == Below(front, bound);
        assert AtLeast(indices, bound) == AtLeast(front, bound) + [last];
      }
    }
  }

  /** The set indices below a bound are those of the flags before it. */
  lemma {:induction false} BelowIsPrefix(flags: seq<bool>, bound: nat)
    requires bound <= |flags|
    ensures Below(TrueIndices(flags), bound) == TrueIndices(flags[..bound])
    decreases |flags|
  {
    var indices := TrueIndices(flags);
    if bound == |flags| {
      assert flags[..bound] == flags;
      assert forall k :: 0 <= k < |indices| ==> indices[k] in indices;
      AllBelow(indices, bound);
    } else {
      var front := flags[..|flags| - 1];
      BelowIsPrefix(front, bound);
      assert front[..bound] == flags[..bound];
      if flags[|flags| - 1] {
        assert indices[..|indices| - 1] == TrueIndices(front);
      }
    }
  }

  lemma {:induction false} CountSplit(flags: seq<bool>, bound: nat)
    requires bound <= |flags|
    ensures CountTrue(flags) == CountTrue(flags[..bound]) + CountTrue(flags[bound..])
    decreases |flags|
  {
    if bound == |flags| {
      assert flags[..bound] == flags;
    } else {
      var front := flags[..|flags| - 1];
      CountSplit(front, bound);
      assert front[..bound] == flags[..bound] && flags[bound..][..|flags| - 1 - bound] == front[bound..];
    }
  }

  /** `next(i for i in range(from, n) if progress[i] >= exit)`. */
  function NextExit(progress: seq<real>, exit: real, from: nat): (i: Option<nat>)
    requires from <= |progress|
    ensures i.Some? ==> from <= i.value < |progress| && progress[i.value] >= exit
                        && forall j :: from <= j < i.value ==> progress[j] < exit
    ensures i.None? ==> forall j :: from <= j < |progress| ==> progress[j] < exit
    decreases |progress| - from
  {
    if from == |progress| then None
    else if progress[from] >= exit then Some(from)
    else NextExit(progress, exit, from + 1)
  }

  // ----- The partition ------------------------------------------------------------------

  function FirstEntry(indices: seq<nat>): Option<nat> {
    if indices == [] then None else Some(indices[0])
  }

  function FirstExit(exit: real, progress: seq<real>, all: seq<nat>): Option<nat>
    requires forall i :: i in all ==> i < |progress|
  {
    if all == [] then None else assert all[0] in all; NextExit(progress, exit, all[0] + 1)
  }

  /** The split of Study 017, as the comprehensions compute it. */
  function VisitsOf(entry: real, exit: real, progress: seq<real>, modes: seq<string>): Visits
    requires |modes| == |progress|
  {
    var all := TrueIndices(InsideFlags(entry, exit, progress));
    var firstExit := FirstExit(exit, progress, all);
    var first := if firstExit.Some? then Below(all, firstExit.value) else all;
    var later := if firstExit.Some? then AtLeast(all, firstExit.value) else [];
    Visits(FirstEntry(all), firstExit, first, later, all, InMode(all, modes, "after"), SpansOf(first), SpansOf(later))
  }

  /** The indices whose frame executed a given mode. */
  function InMode(indices: seq<nat>, modes: seq<string>, mode: string): (kept: seq<nat>)
    requires forall i :: i in indices ==> i < |modes|
    ensures forall i :: i in kept <==> i in indices && modes[i] == mode
  {
    if indices == [] then []
    else
      var front, last := indices[..|indices| - 1], indices[|indices| - 1];
      assert last in indices && forall i :: i in front ==> i in indices;
      assert indices == front + [last];
      InMode(front, modes, mode) + if modes[last] == mode then [last] else []
  }

  /** A bound that is not itself an index separates the two parts strictly. */
  lemma {:induction false} SplitIsStrict(indices: seq<nat>, bound: nat)
    requires bound !in indices
    ensures forall k :: 0 <= k < |AtLeast(indices, bound)| ==> AtLeast(indices, bound)[k] > bound
  {
    if indices != [] {
      var front, last := indices[..|indices| - 1], indices[|indices| - 1];
      assert indices == front + [last];
      SplitIsStrict(front, bound);
    }
  }

  /** First and later visits split all inside indices, in order, at the first forward exit. */
  lemma VisitsPartition(entry: real, exit: real, progress: seq<real>, modes: seq<string>)
    requires |modes| == |progress|
    ensures var v := VisitsOf(entry, exit, progress, modes);
      && v.firstVisit + v.laterVisits == v.allVisits && Increasing(v.allVisits)
      && (forall i :: i in v.allVisits <==> 0 <= i < |progress| && Inside(entry, exit, progress[i]))
      && (v.firstEntry.None? ==> v.firstExit.None?)
      && (v.firstExit.None? ==> v.laterVisits == [])
      && (v.firstExit.Some? ==>
            && (forall k :: 0 <= k < |v.firstVisit| ==> v.firstVisit[k] < v.firstExit.value)
            && (forall k :: 0 <= k < |v.laterVisits| ==> v.laterVisits[k] > v.firstExit.value))
  {
    var v := VisitsOf(entry, exit, progress, modes);
    if v.firstExit.Some? {
      var bound := v.firstExit.value;
      assert v.allVisits[0] in v.allVisits;
      SplitAtBound(v.allVisits, bound);
      SplitIsStrict(v.allVisits, bound);
    }
  }

  /** The first entry is the first inside index, and the first exit the first later row at or
   *  past the exit distance. */
  lemma EntryAndExitAreFirst(entry: real, exit: real, progress: seq<real>, modes: seq<string>)
    requires |modes| == |progress|
    ensures var v := VisitsOf(entry, exit, progress, modes);
      && (v.firstEntry.None? <==> forall i :: 0 <= i < |progress| ==> !Inside(entry, exit, progress[i]))
      && (v.firstEntry.Some? ==>
            && v.firstEntry.value < |progress| && Inside(entry, exit, progress[v.firstEntry.value])
            && (forall i :: 0 <= i < v.firstEntry.value ==> !Inside(entry, exit, progress[i]))
            && (v.firstExit.None? ==> forall i :: v.firstEntry.value < i < |progress| ==> progress[i] < exit))
      && (v.firstExit.Some? ==>
            && v.firstEntry.Some? && v.firstEntry.value < v.firstExit.value < |progress|
            && progress[v.firstExit.value] >= exit
            && (forall i :: v.firstEntry.value < i < v.firstExit.value ==> progress[i] < exit))
  {
    var v := VisitsOf(entry, exit, progress, modes);
    if v.allVisits != [] {
      assert v.allVisits[0] in v.allVisits;
      forall i | 0 <= i < v.allVisits[0]
        ensures !Inside(entry, exit, progress[i])
      {
        if i in v.allVisits {
          FirstIsLeast(v.allVisits, i);
        }
      }
    } else {
      forall i | 0 <= i < |progress|
        ensures !Inside(entry, exit, progress[i])
      {
        assert i !in v.allVisits;
      }
    }
  }

  // ----- The counts of Study 015 ------------------------------------------------------------

  /** The first flag set: `next(i for i, value in enumerate(inside) if value)`. */
  function FirstTrue(flags: seq<bool>, from: nat): (i: Option<nat>)
    requires from <= |flags|
    ensures i.Some? ==> from <= i.value < |flags| && flags[i.value] && forall j :: from <= j < i.value ==> !flags[j]
    ensures i.None? ==> forall j :: from <= j < |flags| ==> !flags[j]
    decreases |flags| - from
  {
    if from == |flags| then None else if flags[from] then Some(from) else FirstTrue(flags, from + 1)
  }

  datatype Counts = Counts(firstCross: nat, later: nat, all: nat)

  function CountsOf(entry: real, exit: real, progress: seq<real>): Counts {
    var inside := InsideFlags(entry, exit, progress);
    var firstEntry := FirstTrue(inside, 0);
    var firstExit := if firstEntry.Some? then NextExit(progress, exit, firstEntry.value + 1) else None;
    Counts(
      if firstExit.Some? then CountTrue(inside[firstEntry.value..firstExit.value]) else CountTrue(inside),
      if firstExit.Some? then CountTrue(inside[firstExit.value..]) else 0,
      CountTrue(inside))
  }

  lemma {:induction false} CountSkipsUnset(flags: seq<bool>, from: nat)
    requires from <= |flags| && forall i :: 0 <= i < from ==> !flags[i]
    ensures CountTrue(flags[from..]) == CountTrue(flags)
    decreases |flags|
  {
    if |flags| > from {
      var front := flags[..|flags| - 1];
      CountSkipsUnset(front, from);
      assert flags[from..][..|flags| - 1 - from] == front[from..];
    } else {
      NoneSet(flags);
      assert flags[from..] == [];
    }
  }

  lemma {:induction false} NoneSet(flags: seq<bool>)
    requires forall i :: 0 <= i < |flags| ==> !flags[i]
    ensures CountTrue(flags) == 0
  {
    if flags != [] {
      NoneSet(flags[..|flags| - 1]);
    }
  }

  lemma CountsAtBound(flags: seq<bool>, bound: nat)
    requires bound <= |flags|
    ensures CountTrue(flags[..bound]) == |Below(TrueIndices(flags), bound)|
    ensures CountTrue(flags[bound..]) == |AtLeast(TrueIndices(flags), bound)|
  {
    BelowIsPrefix(flags, bound);
    SplitAtBound(TrueIndices(flags), bound);
    CountIsLength(flags);
    CountIsLength(flags[..bound]);
    CountSplit(flags, bound);
  }

  /** The Study 015 counts are the lengths of the Study 017 index lists. */
  lemma CountsAgree(entry: real, exit: real, progress: seq<real>, modes: seq<string>)
    requires |modes| == |progress|
    ensures var c, v := CountsOf(entry, exit, progress), VisitsOf(entry, exit, progress, modes);
      c == Counts(|v.firstVisit|, |v.laterVisits|, |v.allVisits|)
  {
    var inside := InsideFlags(entry, exit, progress);
    var v := VisitsOf(entry, exit, progress, modes);
    CountIsLength(inside);
    SameFirstEntry(inside);
    if v.firstExit.Some? {
      var from, bound := FirstTrue(inside, 0).value, v.firstExit.value;
      CountsAtBound(inside, bound);
      CountSkipsUnset(inside[..bound], from);
      assert inside[..bound][from..] == inside[from..bound];
    }
  }

  lemma SameFirstEntry(flags: seq<bool>)
    ensures FirstTrue(flags, 0) == FirstEntry(TrueIndices(flags))
  {
    var indices, first := TrueIndices(flags), FirstTrue(flags, 0);
    assert indices != [] ==> indices[0] in indices;
    if first.Some? {
      assert first.value in indices;
      FirstIsLeast(indices, first.value);
    }
  }

  // ----- Span encoding ----------------------------------------------------------------------

  function Range(first: int, last: int): (range: seq<int>)
    ensures |range| == if first <= last then last + 1 - first else 0
    ensures forall i :: 0 <= i < |range| ==> range[i] == first + i
  {
    if first > last then [] else seq(last + 1 - first, i => first + i)
  }

  /** The indices a list of spans stands for. */
  function Expand(spans: seq<Span>): seq<int> {
    if spans == [] then [] else Range(spans[0].first, spans[0].last) + Expand(spans[1..])
  }

  /** No span is empty and none continues the one before it. */
  ghost predicate Normal(spans: seq<Span>) {
    && (forall k :: 0 <= k < |spans| ==> spans[k].first <= spans[k].last)
    && (forall k :: 0 <= k < |spans| - 1 ==> spans[k + 1].first != spans[k].last + 1)
  }

  /** The spans of an index list, one index at a time. */
  function SpansOf(indices: seq<int>): seq<Span> {
    if indices == [] then []
    else
      var front := SpansOf(indices[..|indices| - 1]);
      var index := indices[|indices| - 1];
      AddIndex(front, index)
  }

  /** One more index lengthens the last span when it continues it, or opens a new one. */
  function AddIndex(spans: seq<Span>, index: int): seq<Span> {
    if spans != [] && index == spans[|spans| - 1].last + 1
    then spans[..|spans| - 1] + [spans[|spans| - 1].(last := index)]
    else spans + [Span(index, index)]
  }

  /** The encoding loop of Study 017. */
  method ContiguousSpans(indices: seq<int>) returns (spans: seq<Span>)
    ensures spans == SpansOf(indices)
  {
    if indices == [] {
      return [];
    }
    spans := [];
    var start, previous := indices[0], indices[0];
    var k := 1;
    assert indices[..1][..0] == [];
    while k < |indices|
      invariant 1 <= k <= |indices|
      invariant spans + [Span(start, previous)] == SpansOf(indices[..k])
    {
      var index := indices[k];
      assert indices[..k + 1][..k] == indices[..k];
      ghost var front := spans + [Span(start, previous)];
      assert front[..|front| - 1] == spans;
      assert SpansOf(indices[..k + 1]) == AddIndex(front, index);
      if index != previous + 1 {
        spans := spans + [Span(start, previous)];
        start := index;
      }
      previous := index;
      k := k + 1;
    }
    assert indices[..k] == indices;
    spans := spans + [Span(start, previous)];
  }

  lemma ConcatAssociates(a: seq<int>, b: seq<int>, c: seq<int>)
    ensures a + (b + c) == a + b + c
  {
  }

  lemma {:induction false} ExpandAppend(spans: seq<Span>, span: Span)
    ensures Expand(spans + [span]) == Expand(spans) + Range(span.first, span.last)
  {
    var tail := Range(span.first, span.last);
    if spans == [] {
      assert ([] + [span])[1..] == [];
    } else {
      var head, rest := Range(spans[0].first, spans[0].last), Expand(spans[1..]);
      assert Expand(spans + [span]) == head + (rest + tail) by {
        ExpandAppend(spans[1..], span);
        assert (spans + [span])[1..] == spans[1..] + [span];
      }
      ConcatAssociates(head, rest, tail);
    }
  }

  lemma RangeExtends(first: int, last: int)
    requires first <= last
    ensures Range(first, last + 1) == Range(first, last) + [last + 1]
  {
  }

  lemma {:induction false} LengthenLast(kept: seq<Span>, open: Span)
    requires open.first <= open.last
    ensures Expand(kept + [open.(last := open.last + 1)]) == Expand(kept + [open]) + [open.last + 1]
  {
    ExpandAppend(kept, open);
    ExpandAppend(kept, open.(last := open.last + 1));
    RangeExtends(open.first, open.last);
  }

  lemma AddIndexExpands(spans: seq<Span>, index: int)
    requires Normal(spans)
    ensures Expand(AddIndex(spans, index)) == Expand(spans) + [index]
  {
    if spans != [] && index == spans[|spans| - 1].last + 1 {
      var kept, open := spans[..|spans| - 1], spans[|spans| - 1];
      assert spans == kept + [open];
      LengthenLast(kept, open);
    } else {
      ExpandAppend(spans, Span(index, index));
      assert Range(index, index) == [index];
    }
  }

  lemma AddIndexNormal(spans: seq<Span>, index: int)
    requires Normal(spans)
    ensures Normal(AddIndex(spans, index))
  {
  }

  /** Encoding loses nothing and leaves no joinable spans, for any list of indices. */
  lemma {:induction false} SpansExpandBack(indices: seq<int>)
    ensures Expand(SpansOf(indices)) == indices && Normal(SpansOf(indices))
  {
    if indices != [] {
      SpansExpandBack(indices[..|indices| - 1]);
      AddIndexExpands(SpansOf(indices[..|indices| - 1]), indices[|indices| - 1]);
      AddIndexNormal(SpansOf(indices[..|indices| - 1]), indices[|indices| - 1]);
    }
  }

  function RunLength(span: Span): int {
    span.last + 1 - span.first
  }

  lemma FirstRun(spans: seq<Span>, i: int)
    requires Normal(spans) && spans != [] && 0 <= i < RunLength(spans[0])
    ensures i < |Expand(spans)| && Expand(spans)[i] == spans[0].first + i
  {
  }

  /** For rising indices the spans rise too, with a gap before each next one. */
  lemma SpansHaveGaps(indices: seq<int>)
    requires Increasing(indices)
    ensures var spans := SpansOf(indices);
      forall k :: 0 <= k < |spans| - 1 ==> spans[k].last + 1 < spans[k + 1].first
  {
    SpansExpandBack(indices);
    forall k | 0 <= k < |SpansOf(indices)| - 1
      ensures SpansOf(indices)[k].last + 1 < SpansOf(indices)[k + 1].first
    {
      var i := AdjacentInExpansion(SpansOf(indices), k);
    }
  }

  lemma AfterRunAt(spans: seq<Span>, j: nat)
    requires Normal(spans) && spans != [] && j < |Expand(spans[1..])|
    ensures RunLength(spans[0]) + j < |Expand(spans)|
    ensures Expand(spans)[RunLength(spans[0]) + j] == Expand(spans[1..])[j]
  {
    AfterRun(spans);
    assert Expand(spans)[RunLength(spans[0])..][j] == Expand(spans)[RunLength(spans[0]) + j];
  }

  /** The last index of a span directly precedes the first of the next in the expansion. */
  lemma {:induction false} AdjacentInExpansion(spans: seq<Span>, k: nat) returns (i: nat)
    requires Normal(spans) && k < |spans| - 1
    ensures i + 1 < |Expand(spans)|
    ensures Expand(spans)[i] == spans[k].last && Expand(spans)[i + 1] == spans[k + 1].first
  {
    var n := RunLength(spans[0]);
    TailIsNormal(spans);
    if k == 0 {
      FirstRun(spans, n - 1);
      FirstRun(spans[1..], 0);
      AfterRunAt(spans, 0);
      i := n - 1;
    } else {
      var j := AdjacentInExpansion(spans[1..], k - 1);
      AfterRunAt(spans, j);
      AfterRunAt(spans, j + 1);
      i := n + j;
    }
  }

  lemma SameFirstSpan(a: seq<Span>, b: seq<Span>)
    requires Normal(a) && Normal(b) && Expand(a) == Expand(b) && a != [] && b != []
    ensures a[0] == b[0] && Expand(a[1..]) == Expand(b[1..])
  {
    FirstRun(a, 0);
    FirstRun(b, 0);
    FirstRunIsMaximal(a, b);
    FirstRunIsMaximal(b, a);
    AfterRun(a);
    AfterRun(b);
  }

  lemma TailIsNormal(spans: seq<Span>)
    requires Normal(spans) && spans != []
    ensures Normal(spans[1..]) && spans == [spans[0]] + spans[1..]
  {
  }

  /** Only one list of normal spans stands for given indices. */
  lemma {:induction false} NormalSpansAreUnique(a: seq<Span>, b: seq<Span>)
    requires Normal(a) && Normal(b) && Expand(a) == Expand(b)
    ensures a == b
  {
    EmptyExpansion(a);
    EmptyExpansion(b);
    if a != [] && b != [] {
      SameFirstSpan(a, b);
      TailIsNormal(a);
      TailIsNormal(b);
      NormalSpansAreUnique(a[1..], b[1..]);
    }
  }

  lemma AfterRun(spans: seq<Span>)
    requires Normal(spans) && spans != []
    ensures RunLength(spans[0]) <= |Expand(spans)| && Expand(spans)[RunLength(spans[0])..] == Expand(spans[1..])
  {
  }

  lemma EmptyExpansion(spans: seq<Span>)
    requires Normal(spans)
    ensures Expand(spans) == [] <==> spans == []
  {
  }

  lemma AfterFirstRun(spans: seq<Span>)
    requires Normal(spans) && spans != []
    ensures var n := RunLength(spans[0]);
            |Expand(spans)| == n || (|Expand(spans)| > n && Expand(spans)[n] != spans[0].last + 1)
  {
    if |spans| > 1 {
      assert Normal(spans[1..]);
      FirstRun(spans[1..], 0);
      assert Expand(spans)[RunLength(spans[0])] == Expand(spans[1..])[0] == spans[1].first;
      assert spans[0 + 1].first != spans[0].last + 1;
    } else {
      assert Expand(spans[1..]) == [];
    }
  }

  lemma FirstRunIsMaximal(a: seq<Span>, b: seq<Span>)
    requires Normal(a) && Normal(b) && Expand(a) == Expand(b) && a != [] && b != [] && a[0].first == b[0].first
    ensures b[0].last <= a[0].last
  {
    var n := RunLength(a[0]);
    AfterFirstRun(a);
    if n < RunLength(b[0]) {
      FirstRun(b, n);
    }
  }

  /** The encoding is the one normal span list that stands for the indices. */
  lemma SpansAreCanonical(indices: seq<int>, spans: seq<Span>)
    requires Normal(spans)
    ensures Expand(spans) == indices <==> spans == SpansOf(indices)
  {
    SpansExpandBack(indices);
    if Expand(spans) == indices {
      NormalSpansAreUnique(spans, SpansOf(indices));
    }
  }

  lemma LargestAtEnd(kept: seq<nat>, last: nat)
    requires Increasing(kept) && forall i :: i in kept ==> i < last
    ensures Increasing(kept + [last])
  {
    assert forall k :: 0 <= k < |kept| ==> kept[k] in kept;
  }

  lemma {:induction false} ModeKeepsOrder(indices: seq<nat>, modes: seq<string>, mode: string)
    requires Increasing(indices) && forall i :: i in indices ==> i < |modes|
    ensures Increasing(InMode(indices, modes, mode))
  {
    if indices != [] {
      var front, last := indices[..|indices| - 1], indices[|indices| - 1];
      assert forall i :: i in front ==> i in indices && i < last;
      ModeKeepsOrder(front, modes, mode);
      LargestAtEnd(InMode(front, modes, mode), last);
    }
  }

  /** What is reported: all rows whose progress lies in the region, those of them executed in the
   *  after mode, and for either part of the visits the spans that stand for it. */
  lemma VisitsAreReported(entry: real, exit: real, progress: seq<real>, modes: seq<string>)
    requires |modes| == |progress|
    ensures var v := VisitsOf(entry, exit, progress, modes);
      && Increasing(v.allVisits) && Increasing(v.afterReentries)
      && (forall i :: i in v.allVisits <==> 0 <= i < |progress| && progress[i] >= entry && progress[i] < exit)
      && (forall i :: i in v.afterReentries <==>
            0 <= i < |progress| && progress[i] >= entry && progress[i] < exit && modes[i] == "after")
      && Expand(v.firstSpans) == v.firstVisit && Normal(v.firstSpans)
      && Expand(v.laterSpans) == v.laterVisits && Normal(v.laterSpans)
  {
    var v := VisitsOf(entry, exit, progress, modes);
    ModeKeepsOrder(TrueIndices(InsideFlags(entry, exit, progress)), modes, "after");
    SpansExpandBack(v.firstVisit);
    SpansExpandBack(v.laterVisits);
  }

  // ----- The whole measurement ------------------------------------------------------------------

  predicate FlagsAgree(entry: real, exit: real, frames: seq<Frame>) {
    forall i :: 0 <= i < |frames| ==> (frames[i].insideFlag <==> Inside(entry, exit, frames[i].progress))
  }

  function Progress(frames: seq<Frame>): seq<real> {
    seq(|frames|, i requires 0 <= i < |frames| => frames[i].progress)
  }

  function Modes(frames: seq<Frame>): seq<string> {
    seq(|frames|, i requires 0 <= i < |frames| => frames[i].mode)
  }

  /** The objective's summary repeats what the visits say. */
  predicate SummaryAgrees(summary: Summary, v: Visits) {
    && summary.insideCount == |v.allVisits|
    && summary.entryObserved == (v.allVisits != [])
    && summary.firstEntryStep == (if v.firstEntry.Some? then Some(v.firstEntry.value + 1) else None)
    && summary.exitObserved == v.firstExit.Some?
    && summary.firstExitStep == (if v.firstExit.Some? then Some(v.firstExit.value + 1) else None)
  }

  /** What the summary has to say: how many rows are inside, and the numbers, counted from one, of
   *  the first row inside and of the first row at or past the exit after it. */
  lemma SummaryReads(summary: Summary, entry: real, exit: real, progress: seq<real>, modes: seq<string>)
    requires |modes| == |progress|
    ensures var v := VisitsOf(entry, exit, progress, modes);
      SummaryAgrees(summary, v) <==>
        && summary.insideCount == CountTrue(InsideFlags(entry, exit, progress))
        && (match v.firstEntry
            case None => !summary.entryObserved && summary.firstEntryStep == None
            case Some(index) => summary.entryObserved && summary.firstEntryStep == Some(index + 1))
        && (match v.firstExit
            case None => !summary.exitObserved && summary.firstExitStep == None
            case Some(index) => summary.exitObserved && summary.firstExitStep == Some(index + 1))
  {
    CountIsLength(InsideFlags(entry, exit, progress));
  }

  method PhysicalRegionVisits(frames: seq<Frame>, summary: Summary, entry: real, exit: real)
    returns (result: Result<Visits, VisitError>)
    ensures result.Ok? <==>
      && 0.0 < entry < exit && FlagsAgree(entry, exit, frames)
      && SummaryAgrees(summary, VisitsOf(entry, exit, Progress(frames), Modes(frames)))
    ensures result.Ok? ==> result.value == VisitsOf(entry, exit, Progress(frames), Modes(frames))
    ensures result.Err? ==>
      result.error == if !(0.0 < entry < exit) then RegionDiffers
                      else if !FlagsAgree(entry, exit, frames) then FlagDiffers else SummaryDiffers
  {
    if !(0.0 < entry < exit) {
      return Err(RegionDiffers);
    }
    var progress := [];
    var k := 0;
    while k < |frames|
      invariant k <= |frames| && progress == Progress(frames[..k])
      invariant FlagsAgree(entry, exit, frames[..k])
    {
      var row := frames[k];
      if row.insideFlag != Inside(entry, exit, row.progress) {
        return Err(FlagDiffers);
      }
      progress := progress + [row.progress];
      k := k + 1;
    }
    assert frames[..k] == frames;
    var visits := VisitsOf(entry, exit, progress, Modes(frames));
    if !SummaryAgrees(summary, visits) {
      return Err(SummaryDiffers);
    }
    var firstSpans := ContiguousSpans(visits.firstVisit);
    var laterSpans := ContiguousSpans(visits.laterVisits);
    return Ok(visits.(firstSpans := firstSpans, laterSpans := laterSpans));
  }
}
