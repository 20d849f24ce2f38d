/** Python's buffered writer and reader as the artifact streams use them: which bytes they hold,
 *  pass on, repeat and lose, over every sequence of calls and every failure of the raw stream
 *  below them. */
module BufferedStreams {
  import opened Arithmetic
  import opened Wrappers
  import opened FileSystem

  // ----- Subsequences --------------------------------------------------------------------

  /** `part` is `whole` with some elements left out. */
  predicate Subsequence<T(==)>(part: seq<T>, whole: seq<T>) {
    part == [] ||
    (whole != [] &&
     var shorter := whole[..|whole| - 1];
     Subsequence(part, shorter) ||
     (part[|part| - 1] == whole[|whole| - 1] && Subsequence(part[..|part| - 1], shorter)))
  }

  lemma {:induction false} SubsequenceOfLonger<T>(part: seq<T>, whole: seq<T>, more: seq<T>)
    requires Subsequence(part, whole)
    ensures Subsequence(part, whole + more)
  {
    if more == [] {
      assert whole + more == whole;
    } else {
      SubsequenceOfLonger(part, whole, more[..|more| - 1]);
      assert (whole + more)[..|whole + more| - 1] == whole + more[..|more| - 1];
    }
  }

  lemma {:induction false} SubsequenceGrows<T>(part: seq<T>, whole: seq<T>, more: seq<T>)
    requires Subsequence(part, whole)
    ensures Subsequence(part + more, whole + more)
  {
    if more == [] {
      assert part + more == part && whole + more == whole;
    } else {
      var fewer := more[..|more| - 1];
      SubsequenceGrows(part, whole, fewer);
      assert (whole + more)[..|whole + more| - 1] == whole + fewer;
      assert (part + more)[..|part + more| - 1] == part + fewer;
    }
  }

  /** Something inserted into the whole does not matter. */
  lemma {:induction false} SubsequenceOfInserted<T>(part: seq<T>, front: seq<T>, inserted: seq<T>, back: seq<T>)
    requires Subsequence(part, front + back)
    ensures Subsequence(part, front + inserted + back)
  {
    if back == [] {
      assert front + back == front;
      SubsequenceOfLonger(part, front, inserted);
      assert front + inserted + back == front + inserted;
    } else if part != [] {
      var fewer := back[..|back| - 1];
      assert (front + back)[..|front + back| - 1] == front + fewer;
      assert (front + inserted + back)[..|front + inserted + back| - 1] == front + inserted + fewer;
      if Subsequence(part, front + fewer) {
        SubsequenceOfInserted(part, front, inserted, fewer);
      } else {
        SubsequenceOfInserted(part[..|part| - 1], front, inserted, fewer);
      }
    }
  }

  /** The front of a subsequence is one. */
  lemma {:induction false} FrontIsSubsequence<T>(front: seq<T>, back: seq<T>, whole: seq<T>)
    requires Subsequence(front + back, whole)
    ensures Subsequence(front, whole)
  {
    if front != [] {
      var shorter := whole[..|whole| - 1];
      if Subsequence(front + back, shorter) {
        FrontIsSubsequence(front, back, shorter);
      } else if back == [] {
        assert front + back == front;
      } else {
        assert (front + back)[..|front + back| - 1] == front + back[..|back| - 1];
        FrontIsSubsequence(front, back[..|back| - 1], shorter);
      }
      assert whole == shorter + [whole[|whole| - 1]];
      if Subsequence(front, shorter) {
        SubsequenceOfLonger(front, shorter, [whole[|whole| - 1]]);
      }
    }
  }

  // ----- The buffered writer -----------------------------------------------------------------

  datatype Limits = Limits(bufferSize: nat, maxBytes: nat)

  /** What is in the file, what the writer holds, everything accepted so far, and how many bytes
   *  of the first two are surplus: written by calls that failed. */
  datatype WriterView = WriterView(digested: Bytes, buffer: Bytes, accepted: Bytes, surplus: nat) {
    /** What ends up in the file once the buffer gets out. */
    function Stream(): Bytes {
      digested + buffer
    }
  }

  const FRESH_WRITER := WriterView([], [], [], 0)

  /** How much of `value` one raw write gets into the file. It refuses what exceeds the limit;
   *  `cut` is None if no call below it fails, and otherwise how far the write had come. */
  function Sent(before: nat, value: Bytes, maxBytes: nat, cut: Option<nat>): (count: nat)
    ensures count <= |value|
    ensures count == |value| <==> value == [] || (before + |value| <= maxBytes && cut.None?)
  {
    if value == [] || before + |value| > maxBytes then 0
    else if cut.None? then |value|
    else Min(cut.value, |value| - 1)
  }

  /** Passing the buffer on. On a failure the writer keeps all of it. */
  function Flushed(v: WriterView, limits: Limits, cut: Option<nat>): (WriterView, bool) {
    var count := Sent(|v.digested|, v.buffer, limits.maxBytes, cut);
    var digested := v.digested + v.buffer[..count];
    if count == |v.buffer| then (v.(digested := digested, buffer := []), true)
    else (v.(digested := digested, surplus := v.surplus + count), false)
  }

  predicate FitsBuffer(v: WriterView, value: Bytes, limits: Limits) {
    |v.buffer| + |value| <= limits.bufferSize
  }

  /** Offering a value to a writer whose buffer is empty: a short one is buffered, a long one
   *  goes straight to the raw stream, and nothing of it is kept on a failure. */
  function Offered(v: WriterView, value: Bytes, limits: Limits, cut: Option<nat>): (WriterView, bool) {
    if |value| <= limits.bufferSize then (v.(buffer := value, accepted := v.accepted + value), true)
    else
      var count := Sent(|v.digested|, value, limits.maxBytes, cut);
      var digested := v.digested + value[..count];
      if count == |value| then (v.(digested := digested, accepted := v.accepted + value), true)
      else (v.(digested := digested, surplus := v.surplus + count), false)
  }

  /** A call of `write`. */
  function Written(v: WriterView, value: Bytes, limits: Limits, flushCut: Option<nat>, valueCut: Option<nat>)
    : (WriterView, bool)
  {
    if FitsBuffer(v, value, limits) then
      (v.(buffer := v.buffer + value, accepted := v.accepted + value), true)
    else
      var (flushed, ok) := Flushed(v, limits, flushCut);
      if ok then Offered(flushed, value, limits, valueCut) else (flushed, false)
  }

  /** A call of the owner, with what the file system makes of the raw writes it leads to. */
  datatype WriterCall = Write(value: Bytes, flushCut: Option<nat>, valueCut: Option<nat>) | Flush(cut: Option<nat>)

  function AfterCall(v: WriterView, call: WriterCall, limits: Limits): (WriterView, bool) {
    match call
    case Write(value, flushCut, valueCut) => Written(v, value, limits, flushCut, valueCut)
    case Flush(cut) => Flushed(v, limits, cut)
  }

  /** The calls one after the other; the owner goes on after a failure. */
  function WriterRun(calls: seq<WriterCall>, limits: Limits): WriterView {
    if calls == [] then FRESH_WRITER
    else AfterCall(WriterRun(calls[..|calls| - 1], limits), calls[|calls| - 1], limits).0
  }

  lemma WriterRunGrows(calls: seq<WriterCall>, call: WriterCall, limits: Limits)
    ensures WriterRun(calls + [call], limits) == AfterCall(WriterRun(calls, limits), call, limits).0
  {
    assert (calls + [call])[..|calls|] == calls;
  }

  /** Nothing accepted is lost or reordered, and every other byte of the stream is surplus. */
  ghost predicate WriterConsistent(v: WriterView, limits: Limits) {
    && |v.digested| <= limits.maxBytes && |v.buffer| <= limits.bufferSize
    && |v.Stream()| == |v.accepted| + v.surplus
    && (v.surplus == 0 ==> v.Stream() == v.accepted)
    && Subsequence(v.accepted, v.Stream())
  }

  lemma FlushKeeps(v: WriterView, limits: Limits, cut: Option<nat>)
    requires WriterConsistent(v, limits)
    ensures WriterConsistent(Flushed(v, limits, cut).0, limits)
    ensures Flushed(v, limits, cut).1 ==> Flushed(v, limits, cut).0.Stream() == v.Stream()
  {
    var count := Sent(|v.digested|, v.buffer, limits.maxBytes, cut);
    var after := Flushed(v, limits, cut).0;
    if count == |v.buffer| {
      assert after.Stream() == v.Stream();
    } else {
      SubsequenceOfInserted(v.accepted, v.digested, v.buffer[..count], v.buffer);
      if count == 0 {
        assert after.Stream() == v.Stream();
      }
    }
  }

  /** A value accepted at the end of the stream. */
  lemma AcceptKeeps(v: WriterView, after: WriterView, value: Bytes, limits: Limits)
    requires WriterConsistent(v, limits) && after.Stream() == v.Stream() + value
    requires |after.digested| <= limits.maxBytes && |after.buffer| <= limits.bufferSize
    requires after.accepted == v.accepted + value && after.surplus == v.surplus
    ensures WriterConsistent(after, limits)
  {
    SubsequenceGrows(v.accepted, v.Stream(), value);
  }

  lemma OfferKeeps(v: WriterView, value: Bytes, limits: Limits, cut: Option<nat>)
    requires WriterConsistent(v, limits) && v.buffer == []
    ensures WriterConsistent(Offered(v, value, limits, cut).0, limits)
    ensures Offered(v, value, limits, cut).1 ==> Offered(v, value, limits, cut).0.Stream() == v.Stream() + value
  {
    var (after, ok) := Offered(v, value, limits, cut);
    if ok {
      assert after.Stream() == v.Stream() + value;
      AcceptKeeps(v, after, value, limits);
    } else {
      var count := Sent(|v.digested|, value, limits.maxBytes, cut);
      assert after.Stream() == v.Stream() + value[..count];
      SubsequenceOfLonger(v.accepted, v.Stream(), value[..count]);
    }
  }

  /** Whatever fails, a write keeps the writer consistent; on success its value is accepted at
   *  the end of the stream, and on a failure nothing of it is. */
  lemma WriteKeeps(v: WriterView, value: Bytes, limits: Limits, flushCut: Option<nat>, valueCut: Option<nat>)
    requires WriterConsistent(v, limits)
    ensures var (after, ok) := Written(v, value, limits, flushCut, valueCut);
      && WriterConsistent(after, limits)
      && after.accepted == (if ok then v.accepted + value else v.accepted)
      && (ok ==> after.Stream() == v.Stream() + value && after.surplus == v.surplus)
  {
    if FitsBuffer(v, value, limits) {
      var after := Written(v, value, limits, flushCut, valueCut).0;
      assert after.Stream() == v.Stream() + value;
      AcceptKeeps(v, after, value, limits);
    } else {
      FlushKeeps(v, limits, flushCut);
      if Flushed(v, limits, flushCut).1 {
        OfferKeeps(Flushed(v, limits, flushCut).0, value, limits, valueCut);
      }
    }
  }

  lemma CallKeeps(v: WriterView, call: WriterCall, limits: Limits)
    requires WriterConsistent(v, limits)
    ensures WriterConsistent(AfterCall(v, call, limits).0, limits)
  {
    match call
    case Write(value, flushCut, valueCut) => WriteKeeps(v, value, limits, flushCut, valueCut);
    case Flush(cut) => FlushKeeps(v, limits, cut);
  }

  /** After any calls with any failures, the stream holds what was accepted, in order, and it is
   *  what was accepted exactly when there is no surplus, which its length shows. */
  lemma {:induction false} StreamHoldsAccepted(calls: seq<WriterCall>, limits: Limits)
    ensures var v := WriterRun(calls, limits);
      && WriterConsistent(v, limits)
      && Subsequence(v.accepted, v.Stream())
      && (v.Stream() == v.accepted <==> v.surplus == 0)
      && (v.surplus == 0 <==> |v.Stream()| == |v.accepted|)
  {
    if calls != [] {
      StreamHoldsAccepted(calls[..|calls| - 1], limits);
      CallKeeps(WriterRun(calls[..|calls| - 1], limits), calls[|calls| - 1], limits);
    }
  }

  /** A raw write of `value` that is within the limit and fails after its first byte. */
  predicate CutInside(before: nat, value: Bytes, maxBytes: nat, cut: Option<nat>) {
    |value| > 1 && before + |value| <= maxBytes && cut.Some? && cut.value > 0
  }

  /** One of the raw writes the call makes fails after its first byte. */
  predicate CallCutInside(v: WriterView, call: WriterCall, limits: Limits) {
    match call
    case Flush(cut) => CutInside(|v.digested|, v.buffer, limits.maxBytes, cut)
    case Write(value, flushCut, valueCut) =>
      && !FitsBuffer(v, value, limits)
      && (|| CutInside(|v.digested|, v.buffer, limits.maxBytes, flushCut)
          || (&& Flushed(v, limits, flushCut).1 && |value| > limits.bufferSize
              && CutInside(|v.Stream()|, value, limits.maxBytes, valueCut)))
  }

  lemma SurplusOfCall(v: WriterView, call: WriterCall, limits: Limits)
    ensures AfterCall(v, call, limits).0.surplus >= v.surplus
    ensures AfterCall(v, call, limits).0.surplus > v.surplus <==> CallCutInside(v, call, limits)
  {
  }

  predicate SomeCallCutInside(calls: seq<WriterCall>, limits: Limits) {
    calls != [] &&
    (|| SomeCallCutInside(calls[..|calls| - 1], limits)
     || CallCutInside(WriterRun(calls[..|calls| - 1], limits), calls[|calls| - 1], limits))
  }

  /** The stream differs from what was accepted exactly in the runs in which some raw write,
   *  of the buffer or of a value too long for it, failed after its first byte. */
  lemma {:induction false} StreamDiffersIff(calls: seq<WriterCall>, limits: Limits)
    ensures var v := WriterRun(calls, limits); v.Stream() != v.accepted <==> SomeCallCutInside(calls, limits)
  {
    StreamHoldsAccepted(calls, limits);
    if calls != [] {
      var before := calls[..|calls| - 1];
      StreamHoldsAccepted(before, limits);
      StreamDiffersIff(before, limits);
      SurplusOfCall(WriterRun(before, limits), calls[|calls| - 1], limits);
    }
  }

  /** A value that fits is accepted, the flush fails after k of its bytes, and the owner flushes
   *  again: the k bytes are in the file twice. */
  lemma FlushRepeats(value: Bytes, k: nat, limits: Limits)
    requires 0 < k < |value| <= limits.bufferSize && k + |value| <= limits.maxBytes
    ensures var v := WriterRun([Write(value, None, None), Flush(Some(k)), Flush(None)], limits);
      v.accepted == value && v.buffer == [] && v.digested == value[..k] + value != value
  {
    var calls := [Write(value, None, None), Flush(Some(k)), Flush(None)];
    assert calls[..2] == [Write(value, None, None), Flush(Some(k))];
    assert calls[..2][..1] == [Write(value, None, None)] && calls[..2][..1][..0] == [];
    assert WriterRun(calls[..2][..1], limits) == WriterView([], value, value, 0);
    assert WriterRun(calls[..2], limits) == WriterView(value[..k], value, value, k);
    assert WriterRun(calls, limits) == WriterView(value[..k] + value, [], value, k);
  }

  /** A value too long for the buffer is refused after k of its bytes: they are in the file,
   *  although nothing was accepted, and a flush changes nothing. */
  lemma DirectWriteLeaves(value: Bytes, k: nat, limits: Limits)
    requires 0 < k < |value| <= limits.maxBytes && limits.bufferSize < |value|
    ensures var v := WriterRun([Write(value, None, Some(k)), Flush(None)], limits);
      v.accepted == [] && v.buffer == [] && v.digested == value[..k] != []
  {
    var calls := [Write(value, None, Some(k)), Flush(None)];
    assert calls[..1] == [Write(value, None, Some(k))] && calls[..1][..0] == [];
    assert WriterRun(calls[..1], limits) == WriterView(value[..k], [], [], k);
  }

  // ----- The buffered reader -----------------------------------------------------------------

  /** What the raw reader handed over, what the consumer got, what the reader holds, how many
   *  bytes failed reads have dropped, and how many of them were dropped before the consumer last
   *  got something. */
  datatype ReaderView = ReaderView(digested: Bytes, delivered: Bytes, buffer: Bytes, dropped: nat, gap: nat)

  const FRESH_READER := ReaderView([], [], [], 0, 0)

  /** A call of the consumer: during it the raw reader handed over `taken`; then it delivered up
   *  to `count` bytes, or it raised and what it had in hand is lost. */
  datatype ReaderCall = Delivers(taken: Bytes, count: nat) | Raises(taken: Bytes)

  function AfterRead(v: ReaderView, call: ReaderCall): ReaderView {
    match call
    case Delivers(taken, count) =>
      var held := v.buffer + taken;
      var n := Min(count, |held|);
      ReaderView(v.digested + taken, v.delivered + held[..n], held[n..], v.dropped,
                 if n > 0 then v.dropped else v.gap)
    case Raises(taken) =>
      v.(digested := v.digested + taken, buffer := [], dropped := v.dropped + |v.buffer + taken|)
  }

  function ReaderRun(calls: seq<ReaderCall>): ReaderView {
    if calls == [] then FRESH_READER
    else AfterRead(ReaderRun(calls[..|calls| - 1]), calls[|calls| - 1])
  }

  lemma ReaderRunGrows(calls: seq<ReaderCall>, call: ReaderCall)
    ensures ReaderRun(calls + [call]) == AfterRead(ReaderRun(calls), call)
  {
    assert (calls + [call])[..|calls|] == calls;
  }

  ghost predicate ReaderConsistent(v: ReaderView) {
    && v.gap <= v.dropped
    && |v.delivered| + v.dropped + |v.buffer| == |v.digested|
    && (v.dropped == 0 ==> v.delivered + v.buffer == v.digested)
    && (v.gap == 0 ==> v.delivered <= v.digested)
    && (v.delivered == [] ==> v.gap == 0)
    && (v.delivered != [] ==> v.delivered[|v.delivered| - 1] == v.digested[|v.delivered| + v.gap - 1])
    && v.buffer == v.digested[|v.digested| - |v.buffer|..]
    && Subsequence(v.delivered + v.buffer, v.digested)
  }

  /** What the reader holds during the call is the end of what was handed over. */
  lemma HeldIsEnd(v: ReaderView, taken: Bytes)
    requires ReaderConsistent(v)
    ensures v.buffer + taken == (v.digested + taken)[|v.delivered| + v.dropped..]
  {
  }

  lemma LastDelivered(v: ReaderView, taken: Bytes, n: nat)
    requires ReaderConsistent(v) && 0 < n <= |v.buffer + taken|
    ensures (v.buffer + taken)[n - 1] == (v.digested + taken)[|v.delivered| + v.dropped + n - 1]
    ensures (v.buffer + taken)[n..] == (v.digested + taken)[|v.delivered| + v.dropped + n..]
  {
    HeldIsEnd(v, taken);
  }

  lemma NothingDropped(v: ReaderView, taken: Bytes, n: nat)
    requires v.delivered + v.buffer == v.digested && n <= |v.buffer + taken|
    ensures v.delivered + (v.buffer + taken)[..n] + (v.buffer + taken)[n..] == v.digested + taken
  {
    assert v.delivered + (v.buffer + taken) == v.digested + taken;
  }

  lemma DeliveryInOrder(v: ReaderView, taken: Bytes, n: nat)
    requires ReaderConsistent(v) && n <= |v.buffer + taken|
    ensures Subsequence(v.delivered + (v.buffer + taken)[..n] + (v.buffer + taken)[n..], v.digested + taken)
  {
    var held := v.buffer + taken;
    assert v.delivered + held[..n] + held[n..] == v.delivered + v.buffer + taken;
    SubsequenceGrows(v.delivered + v.buffer, v.digested, taken);
  }

  lemma SomethingDelivered(v: ReaderView, taken: Bytes, n: nat)
    requires ReaderConsistent(v) && 0 < n <= |v.buffer + taken|
    ensures ReaderConsistent(AfterRead(v, Delivers(taken, n)))
  {
    var after := AfterRead(v, Delivers(taken, n));
    DeliveryInOrder(v, taken, n);
    LastDelivered(v, taken, n);
    assert |after.delivered| + after.dropped + |after.buffer| == |after.digested|;
    assert after.delivered[|after.delivered| - 1] == (v.buffer + taken)[n - 1];
    if v.dropped == 0 {
      NothingDropped(v, taken, n);
      assert after.delivered <= after.digested;
    }
  }

  lemma NothingDelivered(v: ReaderView, taken: Bytes)
    requires ReaderConsistent(v)
    ensures ReaderConsistent(AfterRead(v, Delivers(taken, 0)))
  {
    var after := AfterRead(v, Delivers(taken, 0));
    DeliveryInOrder(v, taken, 0);
    HeldIsEnd(v, taken);
    assert after.delivered == v.delivered && after.buffer == v.buffer + taken;
    assert v.digested <= after.digested;
    if v.dropped == 0 {
      NothingDropped(v, taken, 0);
    }
  }

  lemma DeliveryKeeps(v: ReaderView, taken: Bytes, count: nat)
    requires ReaderConsistent(v)
    ensures ReaderConsistent(AfterRead(v, Delivers(taken, count)))
  {
    var n := Min(count, |v.buffer + taken|);
    assert AfterRead(v, Delivers(taken, count)) == AfterRead(v, Delivers(taken, n));
    if n > 0 {
      SomethingDelivered(v, taken, n);
    } else {
      NothingDelivered(v, taken);
    }
  }

  lemma RaiseKeeps(v: ReaderView, taken: Bytes)
    requires ReaderConsistent(v)
    ensures ReaderConsistent(AfterRead(v, Raises(taken)))
  {
    var after := AfterRead(v, Raises(taken));
    FrontIsSubsequence(v.delivered, v.buffer, v.digested);
    SubsequenceOfLonger(v.delivered, v.digested, taken);
    assert after.delivered + after.buffer == v.delivered;
  }

  /** After any calls with any failures, the consumer got the digested bytes in order; what it
   *  got is a prefix of them if no dropped byte precedes a delivered one. */
  lemma {:induction false} ReaderRunKeeps(calls: seq<ReaderCall>)
    ensures ReaderConsistent(ReaderRun(calls))
  {
    if calls != [] {
      var v := ReaderRun(calls[..|calls| - 1]);
      ReaderRunKeeps(calls[..|calls| - 1]);
      match calls[|calls| - 1]
      case Delivers(taken, count) => DeliveryKeeps(v, taken, count);
      case Raises(taken) => RaiseKeeps(v, taken);
    }
  }

  predicate Distinct(bytes: Bytes) {
    forall i, j :: 0 <= i < j < |bytes| ==> bytes[i] != bytes[j]
  }

  /** The condition cannot be weakened: with a gap, no file of distinct bytes starts with what
   *  was delivered. */
  lemma PrefixIffNoGap(v: ReaderView, whole: Bytes)
    requires ReaderConsistent(v) && v.digested <= whole
    ensures v.gap == 0 ==> v.delivered <= whole
    ensures Distinct(whole) ==> (v.delivered <= whole <==> v.gap == 0)
  {
    if v.delivered <= whole && v.delivered != [] {
      assert v.delivered[|v.delivered| - 1] == whole[|v.delivered| - 1];
      assert v.delivered[|v.delivered| - 1] == whole[|v.delivered| + v.gap - 1];
    }
  }

  lemma DeliveredInOrder(v: ReaderView, whole: Bytes)
    requires ReaderConsistent(v) && v.digested <= whole
    ensures Subsequence(v.delivered, whole)
  {
    FrontIsSubsequence(v.delivered, v.buffer, v.digested);
    SubsequenceOfLonger(v.delivered, v.digested, whole[|v.digested|..]);
    assert v.digested + whole[|v.digested|..] == whole;
  }

  /** A read raises after it had taken something, and the consumer reads on: all bytes were
   *  handed over and digested, but the consumer got only what follows the dropped ones. */
  lemma CaughtFailureDrops(lost: Bytes, rest: Bytes)
    requires lost != [] && rest != []
    ensures var v := ReaderRun([Raises(lost), Delivers(rest, |rest|)]);
      && v == ReaderView(lost + rest, rest, [], |lost|, |lost|)
      && (Distinct(lost + rest) ==> !(rest <= lost + rest))
  {
    var calls := [Raises(lost), Delivers(rest, |rest|)];
    assert calls[..1] == [Raises(lost)] && calls[..1][..0] == [];
    assert ReaderRun(calls[..1]) == ReaderView(lost, [], [], |lost|, 0);
    assert ReaderRun(calls) == ReaderView(lost + rest, rest, [], |lost|, |lost|);
    ReaderRunKeeps(calls);
    PrefixIffNoGap(ReaderRun(calls), lost + rest);
  }
}
