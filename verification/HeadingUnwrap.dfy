/** Heading unwrapping, the loop of Study 018 and its second copy in Study 019.
 *  Angles are reals and `pi` is any positive number: nothing here depends on its value. */
module HeadingUnwrap {
  import opened Arithmetic
  import opened Wrappers

  datatype TraceError = EmptyTrace | ModeOrSequenceDiffers | HeadingUnavailable | ReconstructionDiffers

  /** One recorded frame; the mode is the executed one, None is an unavailable measurement. */
  datatype Frame = Frame(mode: string, controlStep: int, heading: Option<real>, phase: Option<real>)

  const MODES := {"before", "inside", "rise", "after"}

  datatype Diagnostics = Diagnostics(
    maxAbsUnwrapped: Option<real>, sampleCount: nat,
    firstHeading: Option<real>, firstStep: Option<int>, firstPhase: Option<real>)

  /** What Study 019 adds: the first, the last and the largest unwrapped after heading, with signs. */
  datatype SignedHeading = SignedHeading(first: real, final: real, peak: real)

  /** The floored remainder: what `%` computes for a positive modulus. */
  function Mod(x: real, m: real): real
    requires m > 0.0
  {
    x - m * (x / m).Floor as real
  }

  function Increment(pi: real, previous: real, signed: real): real
    requires pi > 0.0
  {
    var difference := signed - previous;
    var increment := Mod(difference + pi, 2.0 * pi) - pi;
    if increment == -pi && difference > 0.0 then pi else increment
  }

  // ----- The modulus ------------------------------------------------------------------

  /** n whole turns. */
  ghost function Turns(pi: real, n: int): real {
    2.0 * pi * n as real
  }

  ghost predicate Congruent(pi: real, a: real, b: real) {
    exists n: int :: a == b + Turns(pi, n)
  }

  lemma Fraction(f: real, m: real)
    requires m > 0.0 && 0.0 <= f < 1.0
    ensures 0.0 <= f * m
    ensures f * m < m
  {
    assert (1.0 - f) * m > 0.0;
  }

  lemma Quotient(x: real, m: real) returns (q: real)
    requires m > 0.0
    ensures q == x / m && q * m == x
  {
    q := x / m;
  }

  lemma ModRange(x: real, m: real)
    requires m > 0.0
    ensures 0.0 <= Mod(x, m) < m
  {
    var q := Quotient(x, m);
    var k := q.Floor as real;
    var f := q - k;
    Fraction(f, m);
    var r := f * m;
    assert 0.0 <= r < m;
    assert r == q * m - k * m;
    assert Mod(x, m) == r;
  }

  lemma Scale(a: real, b: real, m: real)
    requires m > 0.0 && a <= b
    ensures a * m <= b * m
  {
    assert (b - a) * m >= 0.0;
  }

  lemma ScaleStrictly(a: real, b: real, m: real)
    requires m > 0.0 && a < b
    ensures a * m < b * m
  {
    assert (b - a) * m > 0.0;
  }

  /** Removing whole turns from a value already in range gives that value back. */
  lemma ModUnique(x: real, m: real, r: real, n: int)
    requires m > 0.0 && 0.0 <= r < m && x == r + m * n as real
    ensures Mod(x, m) == r
  {
    var q := Quotient(x, m);
    var f := Quotient(r, m);
    if f < 0.0 {
      ScaleStrictly(f, 0.0, m);
    }
    if f >= 1.0 {
      Scale(1.0, f, m);
    }
    assert (f + n as real) * m == x;
    assert q == f + n as real by {
      if q < f + n as real {
        ScaleStrictly(q, f + n as real, m);
      }
      if q > f + n as real {
        ScaleStrictly(f + n as real, q, m);
      }
    }
    assert q.Floor == n;
  }

  // ----- One increment ----------------------------------------------------------------

  /** An increment is a shortest turn between the two headings. */
  lemma IncrementIsShortestTurn(pi: real, previous: real, signed: real)
    requires pi > 0.0
    ensures -pi <= Increment(pi, previous, signed) <= pi
    ensures Congruent(pi, Increment(pi, previous, signed), signed - previous)
  {
    var d := signed - previous;
    ModRange(d + pi, 2.0 * pi);
    var k := ((d + pi) / (2.0 * pi)).Floor;
    var increment := Increment(pi, previous, signed);
    var n := if Mod(d + pi, 2.0 * pi) - pi == -pi && d > 0.0 then 1 - k else -k;
    assert Turns(pi, 1 - k) == 2.0 * pi - 2.0 * pi * k as real;
    assert Turns(pi, -k) == -(2.0 * pi * k as real);
    assert increment == d + Turns(pi, n);
  }

  /** A true turn below half a turn is recovered from wrapped headings. */
  lemma IncrementRecoversTurn(pi: real, previous: real, signed: real, turn: real)
    requires pi > 0.0 && Abs(turn) < pi && Congruent(pi, signed - previous, turn)
    ensures Increment(pi, previous, signed) == turn
  {
    var d := signed - previous;
    var n: int :| d == turn + Turns(pi, n);
    ModUnique(d + pi, 2.0 * pi, turn + pi, n);
  }

  /** The turns an increment can stand for: below half a turn any, at exactly half a turn the
   *  one whose direction the raw difference shows. */
  ghost predicate Recoverable(pi: real, previous: real, signed: real, turn: real) {
    && Congruent(pi, signed - previous, turn)
    && (Abs(turn) < pi || (turn == pi && signed > previous) || (turn == -pi && signed <= previous))
  }

  lemma HalfTurn(pi: real, previous: real, signed: real, turn: real)
    requires pi > 0.0 && Congruent(pi, signed - previous, turn) && (turn == pi || turn == -pi)
    ensures Increment(pi, previous, signed) == if signed > previous then pi else -pi
  {
    var d := signed - previous;
    var n: int :| d == turn + Turns(pi, n);
    var k := if turn == pi then n + 1 else n;
    assert Turns(pi, n + 1) == Turns(pi, n) + 2.0 * pi;
    ModUnique(d + pi, 2.0 * pi, 0.0, k);
  }

  /** The increment is a given turn exactly when that turn is recoverable. */
  lemma IncrementIsTurn(pi: real, previous: real, signed: real, turn: real)
    requires pi > 0.0
    ensures Increment(pi, previous, signed) == turn <==> Recoverable(pi, previous, signed, turn)
  {
    IncrementIsShortestTurn(pi, previous, signed);
    var increment := Increment(pi, previous, signed);
    if Congruent(pi, signed - previous, turn) {
      if Abs(turn) < pi {
        IncrementRecoversTurn(pi, previous, signed, turn);
      } else if turn == pi || turn == -pi {
        HalfTurn(pi, previous, signed, turn);
      }
    }
    if increment == turn {
      CongruentSymmetric(pi, increment, signed - previous);
    }
  }

  lemma CongruentSymmetric(pi: real, a: real, b: real)
    requires Congruent(pi, a, b)
    ensures Congruent(pi, b, a)
  {
    var n: int :| a == b + Turns(pi, n);
    assert Turns(pi, -n) == -Turns(pi, n);
    assert b == a + Turns(pi, -n);
  }

  lemma CongruentAdds(pi: real, a: real, b: real, c: real, d: real)
    requires Congruent(pi, a, b) && Congruent(pi, c, d)
    ensures Congruent(pi, a + c, b + d) && Congruent(pi, a - c, b - d)
  {
    var n: int :| a == b + Turns(pi, n);
    var k: int :| c == d + Turns(pi, k);
    assert Turns(pi, n + k) == Turns(pi, n) + Turns(pi, k);
    assert Turns(pi, n - k) == Turns(pi, n) - Turns(pi, k);
  }

  // ----- A whole trace -------------------------------------------------------------------

  /** The unwrapped heading after the first rows, starting from zero. */
  function Unwrapped(pi: real, signed: seq<real>): real
    requires pi > 0.0
  {
    if signed == [] then 0.0
    else
      var front := signed[..|signed| - 1];
      Unwrapped(pi, front) + Increment(pi, Last(front), signed[|signed| - 1])
  }

  function Last(signed: seq<real>): real {
    if signed == [] then 0.0 else signed[|signed| - 1]
  }

  /** The unwrapped heading never leaves the class of the signed heading. */
  lemma {:induction false} UnwrappedIsCongruent(pi: real, signed: seq<real>)
    requires pi > 0.0
    ensures Congruent(pi, Unwrapped(pi, signed), Last(signed))
  {
    if signed == [] {
      assert 0.0 == 0.0 + Turns(pi, 0);
    } else {
      var front, last := signed[..|signed| - 1], signed[|signed| - 1];
      UnwrappedIsCongruent(pi, front);
      IncrementIsShortestTurn(pi, Last(front), last);
      CongruentAdds(pi, Unwrapped(pi, front), Last(front), Increment(pi, Last(front), last), last - Last(front));
    }
  }

  /** The turn a true heading path from zero makes into row i. */
  ghost function TurnAt(truth: seq<real>, i: nat): real
    requires i < |truth|
  {
    truth[i] - if i == 0 then 0.0 else truth[i - 1]
  }

  /** The signed readings wrap the true path, which turns less than half a turn per row. */
  ghost predicate Wraps(pi: real, truth: seq<real>, signed: seq<real>) {
    && |truth| == |signed|
    && (forall i :: 0 <= i < |truth| ==> Congruent(pi, signed[i], truth[i]))
    && (forall i :: 0 <= i < |truth| ==> Abs(TurnAt(truth, i)) < pi)
  }

  lemma {:induction false} RecoveredUpTo(pi: real, truth: seq<real>, signed: seq<real>, k: nat)
    requires pi > 0.0 && |truth| == |signed| && k <= |signed|
    requires forall i :: 0 <= i < k ==> Recoverable(pi, Last(signed[..i]), signed[i], TurnAt(truth, i))
    ensures Unwrapped(pi, signed[..k]) == Last(truth[..k])
  {
    if k > 0 {
      RecoveredUpTo(pi, truth, signed, k - 1);
      assert signed[..k][..k - 1] == signed[..k - 1];
      IncrementIsTurn(pi, Last(signed[..k - 1]), signed[k - 1], TurnAt(truth, k - 1));
    }
  }

  lemma RecoveredRow(pi: real, truth: seq<real>, signed: seq<real>, i: nat)
    requires pi > 0.0 && |truth| == |signed| && i < |signed|
    requires Unwrapped(pi, signed[..i]) == Last(truth[..i]) && Unwrapped(pi, signed[..i + 1]) == Last(truth[..i + 1])
    ensures Recoverable(pi, Last(signed[..i]), signed[i], TurnAt(truth, i))
  {
    assert signed[..i + 1][..i] == signed[..i];
    IncrementIsTurn(pi, Last(signed[..i]), signed[i], TurnAt(truth, i));
  }

  /** The unwrapped heading is the true one at every row exactly when every turn of the true
   *  path is recoverable from the two readings around it. */
  lemma UnwrapAtEveryRow(pi: real, truth: seq<real>, signed: seq<real>)
    requires pi > 0.0 && |truth| == |signed|
    ensures (forall k :: 0 <= k <= |signed| ==> Unwrapped(pi, signed[..k]) == Last(truth[..k]))
      <==> forall i :: 0 <= i < |signed| ==> Recoverable(pi, Last(signed[..i]), signed[i], TurnAt(truth, i))
  {
    if forall i :: 0 <= i < |signed| ==> Recoverable(pi, Last(signed[..i]), signed[i], TurnAt(truth, i)) {
      forall k | 0 <= k <= |signed|
        ensures Unwrapped(pi, signed[..k]) == Last(truth[..k])
      {
        RecoveredUpTo(pi, truth, signed, k);
      }
    }
    if forall k :: 0 <= k <= |signed| ==> Unwrapped(pi, signed[..k]) == Last(truth[..k]) {
      forall i | 0 <= i < |signed|
        ensures Recoverable(pi, Last(signed[..i]), signed[i], TurnAt(truth, i))
      {
        assert Unwrapped(pi, signed[..i + 1]) == Last(truth[..i + 1]);
        RecoveredRow(pi, truth, signed, i);
      }
    }
  }

  lemma WrappedTurnIsRecoverable(pi: real, truth: seq<real>, signed: seq<real>, i: nat)
    requires pi > 0.0 && Wraps(pi, truth, signed) && i < |signed|
    ensures Recoverable(pi, Last(signed[..i]), signed[i], TurnAt(truth, i))
  {
    if i == 0 {
      assert 0.0 == 0.0 + Turns(pi, 0);
    }
    assert Congruent(pi, Last(signed[..i]), Last(truth[..i]));
    CongruentAdds(pi, signed[i], truth[i], Last(signed[..i]), Last(truth[..i]));
  }

  /** Unwrapping inverts wrapping at every row. */
  lemma UnwrapInvertsWrap(pi: real, truth: seq<real>, signed: seq<real>)
    requires pi > 0.0 && Wraps(pi, truth, signed)
    ensures forall k :: 0 <= k <= |signed| ==> Unwrapped(pi, signed[..k]) == Last(truth[..k])
  {
    forall i | 0 <= i < |signed|
      ensures Recoverable(pi, Last(signed[..i]), signed[i], TurnAt(truth, i))
    {
      WrappedTurnIsRecoverable(pi, truth, signed, i);
    }
    UnwrapAtEveryRow(pi, truth, signed);
  }

  // ----- The two loops -----------------------------------------------------------------------

  /** What the first loop accepts about row `index`. */
  predicate AcceptedRow(pi: real, row: Frame, index: nat) {
    && row.mode in MODES && row.controlStep == index + 1
    && row.heading.Some? && row.phase.Some? && Abs(row.heading.value) <= pi
  }

  predicate Accepted(pi: real, frames: seq<Frame>) {
    frames != [] && forall i :: 0 <= i < |frames| ==> AcceptedRow(pi, frames[i], i)
  }

  /** The traces that are accepted: rows numbered from one, in four modes, with a phase and a
   *  heading of at most half a turn either way. */
  lemma AcceptedTraces(pi: real, frames: seq<Frame>)
    ensures Accepted(pi, frames) <==>
      |frames| > 0 && forall i :: 0 <= i < |frames| ==>
        && (frames[i].mode == "before" || frames[i].mode == "inside" || frames[i].mode == "rise"
            || frames[i].mode == "after")
        && frames[i].controlStep - 1 == i && frames[i].phase != None
        && frames[i].heading.Some? && -pi <= frames[i].heading.value <= pi
  {
    assert forall i :: 0 <= i < |frames| ==> (frames[i].phase != None <==> frames[i].phase.Some?);
  }

  /** The first row that is not accepted, and what is wrong with it. */
  ghost predicate FirstFault(pi: real, frames: seq<Frame>, i: nat, error: TraceError) {
    && i < |frames| && (forall j :: 0 <= j < i ==> AcceptedRow(pi, frames[j], j))
    && match error
       case ModeOrSequenceDiffers =>
         !(frames[i].mode in {"before", "inside", "rise", "after"}) || frames[i].controlStep != i + 1
       case HeadingUnavailable =>
         && frames[i].mode in {"before", "inside", "rise", "after"} && frames[i].controlStep == i + 1
         && (frames[i].heading.None? || frames[i].phase.None?
             || frames[i].heading.value > pi || frames[i].heading.value < -pi)
       case _ => false
  }

  function Signed(frames: seq<Frame>): seq<real>
    requires forall i :: 0 <= i < |frames| ==> frames[i].heading.Some?
  {
    seq(|frames|, i requires 0 <= i < |frames| => frames[i].heading.value)
  }

  /** The unwrapped headings of the rows executed in the after mode, in order. */
  function AfterHeadings(pi: real, frames: seq<Frame>): seq<real>
    requires pi > 0.0 && forall i :: 0 <= i < |frames| ==> frames[i].heading.Some?
  {
    if frames == [] then []
    else
      var front := frames[..|frames| - 1];
      AfterHeadings(pi, front) + if frames[|frames| - 1].mode == "after" then [Unwrapped(pi, Signed(frames))] else []
  }

  /** These are the rows executed in the after mode, in order. */
  ghost predicate AreAfterRows(frames: seq<Frame>, rows: seq<nat>) {
    && (forall k :: 0 <= k < |rows| ==> rows[k] < |frames| && frames[rows[k]].mode == "after")
    && (forall k, l :: 0 <= k < l < |rows| ==> rows[k] < rows[l])
    && forall i: nat :: i < |frames| && frames[i].mode == "after" ==> i in rows
  }

  ghost function AfterPositions(frames: seq<Frame>): seq<nat> {
    if frames == [] then []
    else
      var last := |frames| - 1;
      AfterPositions(frames[..last]) + if frames[last].mode == "after" then [last] else []
  }

  lemma {:induction false} PositionsAreAfterRows(frames: seq<Frame>)
    ensures AreAfterRows(frames, AfterPositions(frames))
  {
    if frames != [] {
      var front, last := frames[..|frames| - 1], |frames| - 1;
      PositionsAreAfterRows(front);
      var rows := AfterPositions(frames);
      forall i: nat | i < |frames| && frames[i].mode == "after"
        ensures i in rows
      {
        assert i < last ==> front[i] == frames[i] && i in AfterPositions(front);
        assert i == last ==> rows[|AfterPositions(front)|] == i;
      }
    }
  }

  /** The values are the unwrapped headings at these rows, each from all readings up to its row. */
  ghost predicate MeasuredAt(pi: real, signed: seq<real>, values: seq<real>, rows: seq<nat>)
    requires pi > 0.0
  {
    |values| == |rows| && forall k :: 0 <= k < |rows| ==> MeasuredIn(pi, signed, values[k], rows[k])
  }

  ghost predicate MeasuredIn(pi: real, signed: seq<real>, value: real, row: nat)
    requires pi > 0.0
  {
    row < |signed| && value == Unwrapped(pi, signed[..row + 1])
  }

  lemma MeasuredMore(pi: real, signed: seq<real>, reading: real, values: seq<real>, rows: seq<nat>)
    requires pi > 0.0 && MeasuredAt(pi, signed, values, rows)
    ensures MeasuredAt(pi, signed + [reading], values, rows)
    ensures MeasuredAt(pi, signed + [reading], values + [Unwrapped(pi, signed + [reading])], rows + [|signed|])
  {
    var longer := signed + [reading];
    assert longer[..|signed| + 1] == longer;
    forall k | 0 <= k < |rows|
      ensures MeasuredIn(pi, longer, values[k], rows[k])
    {
      assert MeasuredIn(pi, signed, values[k], rows[k]);
      assert longer[..rows[k] + 1] == signed[..rows[k] + 1];
    }
  }

  /** The after headings are the unwrapped ones at the after rows. */
  lemma {:induction false} AfterHeadingsAt(pi: real, frames: seq<Frame>)
    requires pi > 0.0 && forall i :: 0 <= i < |frames| ==> frames[i].heading.Some?
    ensures MeasuredAt(pi, Signed(frames), AfterHeadings(pi, frames), AfterPositions(frames))
  {
    if frames != [] {
      var front, last := frames[..|frames| - 1], frames[|frames| - 1];
      AfterHeadingsAt(pi, front);
      assert Signed(frames) == Signed(front) + [last.heading.value];
      MeasuredMore(pi, Signed(front), last.heading.value, AfterHeadings(pi, front), AfterPositions(front));
    }
  }

  /** For readings of a true path that turns less than half a turn per row, the after headings
   *  are the true ones at the after rows. */
  lemma TrueHeadingsAreReported(pi: real, truth: seq<real>, frames: seq<Frame>) returns (rows: seq<nat>)
    requires pi > 0.0 && forall i :: 0 <= i < |frames| ==> frames[i].heading.Some?
    requires Wraps(pi, truth, Signed(frames))
    ensures AreAfterRows(frames, rows) && |rows| == |AfterHeadings(pi, frames)|
    ensures forall k :: 0 <= k < |rows| ==> AfterHeadings(pi, frames)[k] == truth[rows[k]]
  {
    rows := AfterPositions(frames);
    PositionsAreAfterRows(frames);
    AfterHeadingsAt(pi, frames);
    UnwrapInvertsWrap(pi, truth, Signed(frames));
    forall k | 0 <= k < |rows|
      ensures AfterHeadings(pi, frames)[k] == truth[rows[k]]
    {
      assert MeasuredIn(pi, Signed(frames), AfterHeadings(pi, frames)[k], rows[k]);
      assert Unwrapped(pi, Signed(frames)[..rows[k] + 1]) == Last(truth[..rows[k] + 1]);
    }
  }

  ghost predicate IsFirstAfter(frames: seq<Frame>, i: nat) {
    i < |frames| && frames[i].mode == "after" && forall j :: 0 <= j < i ==> frames[j].mode != "after"
  }

  /** The largest magnitude of the after headings, None without any. */
  function MaxAbs(values: seq<real>): (m: Option<real>)
    ensures m.None? <==> values == []
    ensures m.Some? ==> (exists v :: v in values && m.value == Abs(v)) && forall v :: v in values ==> Abs(v) <= m.value
  {
    if values == [] then None
    else
      var front := MaxAbs(values[..|values| - 1]);
      var last := values[|values| - 1];
      assert values == values[..|values| - 1] + [last];
      if front.Some? && front.value >= Abs(last) then front else Some(Abs(last))
  }

  lemma SignedExtends(frames: seq<Frame>, n: nat)
    requires n < |frames| && forall i :: 0 <= i <= n ==> frames[i].heading.Some?
    ensures Signed(frames[..n + 1])[..n] == Signed(frames[..n]) && Signed(frames[..n + 1])[n] == frames[n].heading.value
    ensures Signed(frames[..n + 1]) == Signed(frames[..n]) + [frames[n].heading.value]
  {
  }

  /** What the first loop keeps of an after row. */
  datatype AfterRow = AfterRow(magnitude: real, heading: real, step: int, phase: real)

  function Keep(row: Frame, step: int, unwrapped: real): seq<AfterRow>
    requires row.heading.Some? && row.phase.Some?
  {
    if row.mode == "after" then [AfterRow(Abs(unwrapped), row.heading.value, step, row.phase.value)] else []
  }

  function AfterRows(pi: real, frames: seq<Frame>): seq<AfterRow>
    requires pi > 0.0 && forall i :: 0 <= i < |frames| ==> frames[i].heading.Some? && frames[i].phase.Some?
  {
    if frames == [] then []
    else
      var front, row := frames[..|frames| - 1], frames[|frames| - 1];
      AfterRows(pi, front) + Keep(row, |frames|, Unwrapped(pi, Signed(frames)))
  }

  lemma {:induction false} AfterRowsMeasure(pi: real, frames: seq<Frame>)
    requires pi > 0.0 && forall i :: 0 <= i < |frames| ==> frames[i].heading.Some? && frames[i].phase.Some?
    ensures |AfterRows(pi, frames)| == |AfterHeadings(pi, frames)|
    ensures forall k :: 0 <= k < |AfterRows(pi, frames)| ==>
      AfterRows(pi, frames)[k].magnitude == Abs(AfterHeadings(pi, frames)[k])
  {
    if frames != [] {
      AfterRowsMeasure(pi, frames[..|frames| - 1]);
    }
  }

  lemma {:induction false} NoAfterRow(pi: real, frames: seq<Frame>)
    requires pi > 0.0 && forall i :: 0 <= i < |frames| ==> frames[i].heading.Some? && frames[i].phase.Some?
    ensures AfterRows(pi, frames) == [] <==> forall i :: 0 <= i < |frames| ==> frames[i].mode != "after"
  {
    if frames != [] {
      NoAfterRow(pi, frames[..|frames| - 1]);
      assert forall i :: 0 <= i < |frames| - 1 ==> frames[..|frames| - 1][i] == frames[i];
    }
  }

  lemma {:induction false} FirstRowKept(pi: real, frames: seq<Frame>, first: nat)
    requires pi > 0.0 && forall i :: 0 <= i < |frames| ==> frames[i].heading.Some? && frames[i].phase.Some?
    requires IsFirstAfter(frames, first)
    ensures KeepsFirst(frames, AfterRows(pi, frames), first) && AfterRows(pi, frames) != []
  {
    var front := frames[..|frames| - 1];
    if first < |front| {
      assert IsFirstAfter(front, first);
      FirstRowKept(pi, front, first);
    } else {
      NoAfterRow(pi, front);
    }
  }

  function LeastAfter(frames: seq<Frame>, from: nat): (first: nat)
    requires exists i :: from <= i < |frames| && frames[i].mode == "after"
    ensures from <= first < |frames| && frames[first].mode == "after"
    ensures forall j :: from <= j < first ==> frames[j].mode != "after"
    decreases |frames| - from
  {
    if frames[from].mode == "after" then from else LeastAfter(frames, from + 1)
  }

  /** What the loop keeps of the first after row. */
  ghost predicate KeepsFirst(frames: seq<Frame>, rows: seq<AfterRow>, first: nat) {
    rows != [] ==>
      && IsFirstAfter(frames, first) && rows[0].step == first + 1
      && Some(rows[0].heading) == frames[first].heading && Some(rows[0].phase) == frames[first].phase
  }

  lemma FirstAfterRow(pi: real, frames: seq<Frame>) returns (first: nat)
    requires pi > 0.0 && forall i :: 0 <= i < |frames| ==> frames[i].heading.Some? && frames[i].phase.Some?
    ensures KeepsFirst(frames, AfterRows(pi, frames), first)
  {
    first := 0;
    NoAfterRow(pi, frames);
    if AfterRows(pi, frames) != [] {
      first := LeastAfter(frames, 0);
      FirstRowKept(pi, frames, first);
    }
  }

  /** The checks on one row; None accepts it. */
  function RowError(pi: real, row: Frame, index: nat): (error: Option<TraceError>)
    ensures error.None? <==> AcceptedRow(pi, row, index)
    ensures error != Some(ReconstructionDiffers)
  {
    if row.mode !in MODES || row.controlStep != index + 1 then Some(ModeOrSequenceDiffers)
    else if row.heading.None? || row.phase.None? || Abs(row.heading.value) > pi then Some(HeadingUnavailable)
    else None
  }

  /** What the loop variables hold after n rows. */
  ghost predicate Collected(pi: real, frames: seq<Frame>, n: nat, previous: real, unwrapped: real, after: seq<AfterRow>)
    requires pi > 0.0 && n <= |frames|
    requires forall i :: 0 <= i < n ==> frames[i].heading.Some? && frames[i].phase.Some?
  {
    && previous == Last(Signed(frames[..n])) && unwrapped == Unwrapped(pi, Signed(frames[..n]))
    && after == AfterRows(pi, frames[..n])
  }

  lemma CollectOneMore(pi: real, frames: seq<Frame>, n: nat, previous: real, unwrapped: real, after: seq<AfterRow>)
    requires pi > 0.0 && n < |frames|
    requires forall i :: 0 <= i <= n ==> frames[i].heading.Some? && frames[i].phase.Some?
    requires Collected(pi, frames, n, previous, unwrapped, after)
    ensures var signed := frames[n].heading.value;
      var next := unwrapped + Increment(pi, previous, signed);
      Collected(pi, frames, n + 1, signed, next, after + Keep(frames[n], n + 1, next))
  {
    SignedExtends(frames, n);
    assert frames[..n + 1][..n] == frames[..n];
  }

  /** The unwrapping loop of Study 018, with its row checks. */
  method CollectAfter(pi: real, frames: seq<Frame>) returns (result: Result<seq<AfterRow>, TraceError>)
    requires pi > 0.0 && frames != []
    ensures result.Ok? <==> Accepted(pi, frames)
    ensures result.Err? ==> result.error != ReconstructionDiffers
    ensures result.Err? ==> exists i :: FirstFault(pi, frames, i, result.error)
    ensures result.Ok? ==> result.value == AfterRows(pi, frames)
  {
    var previous, unwrapped := 0.0, 0.0;
    var after: seq<AfterRow> := [];
    var index := 0;
    while index < |frames|
      invariant index <= |frames|
      invariant forall i :: 0 <= i < index ==> AcceptedRow(pi, frames[i], i)
      invariant Collected(pi, frames, index, previous, unwrapped, after)
    {
      var row := frames[index];
      var error := RowError(pi, row, index);
      if error.Some? {
        assert FirstFault(pi, frames, index, error.value);
        return Err(error.value);
      }
      var signed := row.heading.value;
      CollectOneMore(pi, frames, index, previous, unwrapped, after);
      unwrapped := unwrapped + Increment(pi, previous, signed);
      previous := signed;
      if row.mode == "after" {
        after := after + [AfterRow(Abs(unwrapped), signed, index + 1, row.phase.value)];
      }
      index := index + 1;
    }
    assert frames[..index] == frames;
    return Ok(after);
  }

  /** The reported diagnostics, read off the after rows. */
  function Summary(after: seq<AfterRow>, largest: Option<real>): Diagnostics {
    if after == [] then Diagnostics(largest, 0, None, None, None)
    else Diagnostics(largest, |after|, Some(after[0].heading), Some(after[0].step), Some(after[0].phase))
  }

  ghost predicate DescribesFirst(frames: seq<Frame>, first: nat, d: Diagnostics) {
    && IsFirstAfter(frames, first) && d.firstHeading == frames[first].heading
    && d.firstStep == Some(first + 1) && d.firstPhase == frames[first].phase
  }

  /** The diagnostics measure `headings` and quote the first after row. */
  ghost predicate Describes(frames: seq<Frame>, headings: seq<real>, d: Diagnostics) {
    && d.maxAbsUnwrapped == MaxAbs(headings) && d.sampleCount == |headings|
    && (if headings == [] then d.firstHeading.None? && d.firstStep.None? && d.firstPhase.None?
        else exists first :: DescribesFirst(frames, first, d))
  }

  lemma SummaryDescribes(frames: seq<Frame>, rows: seq<AfterRow>, headings: seq<real>, first: nat,
                         largest: Option<real>)
    requires |rows| == |headings| && largest == MaxAbs(headings) && KeepsFirst(frames, rows, first)
    ensures Describes(frames, headings, Summary(rows, largest))
  {
    if rows != [] {
      assert DescribesFirst(frames, first, Summary(rows, largest));
    }
  }

  method HeadingDiagnostics(pi: real, frames: seq<Frame>) returns (result: Result<Diagnostics, TraceError>)
    requires pi > 0.0
    ensures result.Ok? <==> Accepted(pi, frames)
    ensures result.Err? ==> result.error != ReconstructionDiffers
    ensures result.Err? ==>
      if frames == [] then result.error == EmptyTrace else exists i :: FirstFault(pi, frames, i, result.error)
    ensures result.Ok? ==> Describes(frames, AfterHeadings(pi, frames), result.value)
  {
    if frames == [] {
      return Err(EmptyTrace);
    }
    var collected := CollectAfter(pi, frames);
    if collected.Err? {
      return Err(collected.error);
    }
    var after := collected.value;
    AfterRowsMeasure(pi, frames);
    var largest := MaxMagnitude(after, AfterHeadings(pi, frames));
    ghost var first := FirstAfterRow(pi, frames);
    SummaryDescribes(frames, after, AfterHeadings(pi, frames), first, largest);
    return Ok(Summary(after, largest));
  }

  /** `max` over the magnitudes, which are those of `values`. */
  method MaxMagnitude(rows: seq<AfterRow>, ghost values: seq<real>) returns (largest: Option<real>)
    requires |rows| == |values| && forall k :: 0 <= k < |rows| ==> rows[k].magnitude == Abs(values[k])
    ensures largest == MaxAbs(values)
  {
    largest := None;
    for k := 0 to |rows|
      invariant largest == MaxAbs(values[..k])
    {
      assert values[..k + 1][..k] == values[..k];
      if largest.None? || rows[k].magnitude > largest.value {
        largest := Some(rows[k].magnitude);
      }
    }
    assert values[..|rows|] == values;
  }

  /** The unchecked second loop, as Study 019 runs it after the first one accepted the trace. */
  method SignedAfter(pi: real, frames: seq<Frame>) returns (signedAfter: seq<real>)
    requires pi > 0.0 && Accepted(pi, frames)
    ensures signedAfter == AfterHeadings(pi, frames)
  {
    var previous, unwrapped := 0.0, 0.0;
    signedAfter := [];
    var index := 0;
    while index < |frames|
      invariant index <= |frames|
      invariant previous == Last(Signed(frames[..index])) && unwrapped == Unwrapped(pi, Signed(frames[..index]))
      invariant signedAfter == AfterHeadings(pi, frames[..index])
    {
      var row := frames[index];
      var signed := row.heading.value;
      SignedExtends(frames, index);
      assert frames[..index + 1][..index] == frames[..index];
      unwrapped := unwrapped + Increment(pi, previous, signed);
      previous := signed;
      if row.mode == "after" {
        signedAfter := signedAfter + [unwrapped];
      }
      index := index + 1;
    }
    assert frames[..index] == frames;
  }

  /** `max(values, key=abs)`: the first value of largest magnitude. */
  function PeakByAbs(values: seq<real>): (peak: real)
    requires values != []
    ensures peak in values && forall v :: v in values ==> Abs(v) <= Abs(peak)
  {
    if |values| == 1 then values[0]
    else
      var front := PeakByAbs(values[..|values| - 1]);
      var last := values[|values| - 1];
      assert values == values[..|values| - 1] + [last];
      if Abs(last) > Abs(front) then last else front
  }

  /** The first of the values of the largest magnitude. */
  ghost predicate IsFirstPeak(values: seq<real>, k: nat) {
    && k < |values|
    && (forall l :: 0 <= l < |values| ==> Abs(values[l]) <= Abs(values[k]))
    && (forall l :: 0 <= l < k ==> Abs(values[l]) < Abs(values[k]))
  }

  lemma FirstPeakExtends(values: seq<real>, k: nat)
    requires |values| > 1 && IsFirstPeak(values[..|values| - 1], k)
    ensures var last: nat := |values| - 1;
      IsFirstPeak(values, if Abs(values[last]) > Abs(values[k]) then last else k)
  {
    var front := values[..|values| - 1];
    forall l | 0 <= l < |front|
      ensures Abs(values[l]) <= Abs(values[k]) && (l < k ==> Abs(values[l]) < Abs(values[k]))
    {
      assert front[l] == values[l] && front[k] == values[k];
    }
  }

  /** Of several values of the largest magnitude the first one is the peak, with its sign. */
  lemma {:induction false} PeakIsFirst(values: seq<real>) returns (k: nat)
    requires values != []
    ensures IsFirstPeak(values, k) && PeakByAbs(values) == values[k]
  {
    k := 0;
    if |values| > 1 {
      var last := |values| - 1;
      k := PeakIsFirst(values[..last]);
      FirstPeakExtends(values, k);
      k := if Abs(values[last]) > Abs(values[k]) then last else k;
    }
  }

  lemma PeakHasMaxAbs(values: seq<real>)
    requires values != []
    ensures MaxAbs(values) == Some(Abs(PeakByAbs(values)))
  {
    assert PeakByAbs(values) in values && MaxAbs(values).Some?;
  }

  /** Study 019's cross-check: the mismatch error never fires. */
  method CrossCheckedHeading(pi: real, frames: seq<Frame>)
    returns (result: Result<(Diagnostics, Option<SignedHeading>), TraceError>)
    requires pi > 0.0
    ensures result.Ok? <==> Accepted(pi, frames)
    ensures result.Err? ==> result.error != ReconstructionDiffers
    ensures result.Err? ==>
      if frames == [] then result.error == EmptyTrace else exists i :: FirstFault(pi, frames, i, result.error)
    ensures result.Ok? ==>
      var after := AfterHeadings(pi, frames);
      && Describes(frames, after, result.value.0)
      && (after == [] ==> result.value.1 == None)
      && (after != [] ==> result.value.1 == Some(SignedHeading(after[0], after[|after| - 1], PeakByAbs(after))))
  {
    var heading := HeadingDiagnostics(pi, frames);
    if heading.Err? {
      return Err(heading.error);
    }
    var signedAfter := SignedAfter(pi, frames);
    if signedAfter != [] {
      PeakHasMaxAbs(signedAfter);
      var peak := PeakByAbs(signedAfter);
      if heading.value.maxAbsUnwrapped != Some(Abs(peak)) {
        return Err(ReconstructionDiffers);
      }
      return Ok((heading.value, Some(SignedHeading(signedAfter[0], signedAfter[|signedAfter| - 1], peak))));
    }
    return Ok((heading.value, None));
  }
}
