/** The probe supervisor: reserve a slot, spawn a child, poll it, clean up, verify, release.
 *  Everything the supervisor asks of the outside world is a scripted outcome, so a statement
 *  about every script is a statement about every behaviour of its dependencies. */
module ProbeSupervisor {
  import opened Arithmetic
  import opened Wrappers

  const GROUP_VALIDATION_SECONDS := 2.0
  const RECEIPT_RESERVE_BYTES := 512 * 1024
  const MAX_WALL_SECONDS := 1200
  const MAX_CPU_SECONDS := 1200
  const MAX_OUTPUT_BYTES := 1024 * 1024 * 1024
  const MAX_RSS_BYTES := 8 * 1024 * 1024 * 1024
  const MIN_FREE_DISK_BYTES := 20 * 1024 * 1024 * 1024

  datatype Limits = Limits(wallSeconds: int, cpuSeconds: int, rssBytes: int, freeDiskBytes: int, outputBytes: int) {
    /** What `ProbeLimits` accepts. */
    predicate Valid() {
      && 0 < wallSeconds <= MAX_WALL_SECONDS
      && 0 < cpuSeconds <= MAX_CPU_SECONDS
      && 0 < rssBytes <= MAX_RSS_BYTES
      && freeDiskBytes >= MIN_FREE_DISK_BYTES
      && RECEIPT_RESERVE_BYTES < outputBytes <= MAX_OUTPUT_BYTES
    }

    function ChildOutputBytes(): int {
      outputBytes - RECEIPT_RESERVE_BYTES
    }
  }

  /** The limits a plan may ask for, in seconds and bytes; half a megabyte of the output is kept
   *  back for the receipt. */
  lemma LimitBounds(limits: Limits)
    ensures limits.Valid() <==>
      && 1 <= limits.wallSeconds <= 1200 && 1 <= limits.cpuSeconds <= 1200
      && 1 <= limits.rssBytes <= 8_589_934_592 && limits.freeDiskBytes >= 21_474_836_480
      && 1 <= limits.ChildOutputBytes() <= 1_073_217_536
    ensures limits.outputBytes == limits.ChildOutputBytes() + 524_288
  {
  }

  // ----- Scripts ---------------------------------------------------------------------------

  /** A call returns something or raises. */
  datatype Outcome<+T> = Value(value: T) | Raise

  datatype Token = Token(id: string, record: string)

  datatype GroupCheck = Matches | Differs | LookupFails | OtherError

  /** One round of the group validation. */
  datatype GroupTry = GroupTry(clock: Outcome<real>, check: GroupCheck, exited: Outcome<bool>, sleep: Outcome<()>)

  /** One round of the poll loop; an rss of None stands for every value that is not an int. */
  datatype Tick = Tick(
    exited: Outcome<bool>, clock: Outcome<real>, rss: Outcome<Option<int>>,
    free: Outcome<int>, output: Outcome<int>, sleep: Outcome<()>)

  datatype Verified = NotAnObject | Artifacts(canonical: bool)

  datatype Script = Script(
    binding: Outcome<()>, freeBefore: Outcome<int>, reserve: Outcome<Token>,
    freeAtStart: Outcome<int>, started: Outcome<real>,
    validateSlot: Outcome<Token>, validatePlan: Outcome<()>, prepareFiles: Outcome<()>,
    spawn: Outcome<()>, groupStarted: Outcome<real>, tries: seq<GroupTry>,
    ticks: seq<Tick>, exitedAfter: Outcome<bool>, closeFiles: Outcome<()>,
    cleanup: Outcome<()>, finalClock: Outcome<real>, directoryExists: Outcome<bool>,
    finalFree: Outcome<int>, finalOutput: Outcome<int>, returncode: Option<int>,
    revalidatePlan: Outcome<()>, verify: Outcome<Verified>, release: Outcome<Token>,
    receiptExists: Outcome<bool>, writeReceipt: Outcome<()>)

  datatype Status =
    | PreconditionFailure | Running | TimedOut | ResourceBreach | ChildExited | CleanupFailure
    | Succeeded | ArtifactFailure | ChildFailure | SlotReleaseFailure

  datatype Reason =
    | Exception | WallExceeded | RssUnavailable | RssExceeded | FreeDiskLow | OutputExhausted
    | GroupUnverified | FinalOutputExceeded | FinalDiskLow | ExitCode

  /** What the supervisor got done, in order. */
  datatype Event =
    | SlotReserved(token: Token) | ChildSpawned | GroupValidated | ChildCleaned | CompletionVerified
    | ReleaseRequested(id: string)

  datatype Observed = Observed(peakRss: int, minimumDisk: int, maximumOutput: int)

  datatype Report = Report(ok: bool, status: Status, reason: Option<Reason>, released: bool, receipt: bool,
                           observed: Observed)

  /** A run ends with a report, by an exception nobody catches, or not within the script. */
  datatype Run = Finished(report: Report) | Escaped | Unfinished

  // ----- Group validation --------------------------------------------------------------------

  /** A round after which the validation tries again. */
  predicate TriesAgain(t: GroupTry, deadline: real) {
    && t.clock.Value? && t.clock.value < deadline
    && (t.check.Differs? || t.check.LookupFails?)
    && t.exited == Value(false) && t.sleep.Value?
  }

  /** The first round that does not try again finds the expected group, in time. */
  ghost predicate GroupMatches(s: Script) {
    && s.groupStarted.Value?
    && exists k :: 0 <= k < |s.tries| && MatchesAt(s, k)
  }

  predicate MatchesAt(s: Script, k: nat)
    requires s.groupStarted.Value? && k < |s.tries|
  {
    var deadline := s.groupStarted.value + GROUP_VALIDATION_SECONDS;
    && (forall j :: 0 <= j < k ==> TriesAgain(s.tries[j], deadline))
    && s.tries[k].clock.Value? && s.tries[k].clock.value < deadline && s.tries[k].check.Matches?
  }

  /** The first round that does not try again gives up: it is late, or the child has exited. */
  predicate GivesUpAt(s: Script, k: nat)
    requires s.groupStarted.Value? && k < |s.tries|
  {
    var deadline, t := s.groupStarted.value + GROUP_VALIDATION_SECONDS, s.tries[k];
    && (forall j :: 0 <= j < k ==> TriesAgain(s.tries[j], deadline))
    && t.clock.Value?
    && (t.clock.value >= deadline || ((t.check.Differs? || t.check.LookupFails?) && t.exited == Value(true)))
  }

  ghost predicate GivesUp(s: Script) {
    s.groupStarted.Value? && exists k :: 0 <= k < |s.tries| && GivesUpAt(s, k)
  }

  ghost predicate NeverSettles(s: Script) {
    && s.groupStarted.Value?
    && forall j :: 0 <= j < |s.tries| ==> TriesAgain(s.tries[j], s.groupStarted.value + GROUP_VALIDATION_SECONDS)
  }

  /** `_validate_process_group`; None when the script ends before the loop does. */
  method ValidateProcessGroup(s: Script) returns (r: Option<Outcome<bool>>)
    ensures r == Some(Value(true)) <==> GroupMatches(s)
    ensures r == Some(Value(false)) <==> GivesUp(s)
    ensures r.None? <==> NeverSettles(s)
  {
    if s.groupStarted.Raise? {
      return Some(Raise);
    }
    var deadline := s.groupStarted.value + GROUP_VALIDATION_SECONDS;
    var k := 0;
    while k < |s.tries|
      invariant 0 <= k <= |s.tries|
      invariant forall j :: 0 <= j < k ==> TriesAgain(s.tries[j], deadline)
    {
      var t := s.tries[k];
      assert forall m :: k < m < |s.tries| && MatchesAt(s, m) ==> TriesAgain(t, deadline);
      assert forall m :: k < m < |s.tries| && GivesUpAt(s, m) ==> TriesAgain(t, deadline);
      if t.clock.Raise? {
        return Some(Raise);
      }
      if !(t.clock.value < deadline) {
        assert GivesUpAt(s, k);
        return Some(Value(false));
      }
      if t.check.Matches? {
        assert MatchesAt(s, k);
        return Some(Value(true));
      }
      if t.check.OtherError? || t.exited.Raise? {
        return Some(Raise);
      }
      if t.exited.value {
        assert GivesUpAt(s, k);
        return Some(Value(false));
      }
      if t.sleep.Raise? {
        return Some(Raise);
      }
      k := k + 1;
    }
    return None;
  }

  // ----- The poll loop -----------------------------------------------------------------------

  datatype PollEnd = Exited | Broke(status: Status, reason: Reason) | PollRaised | StillPolling

  /** A round that finds the child running and every sample within its limit. */
  predicate Clean(limits: Limits, started: real, t: Tick) {
    t.exited == Value(false) && Sampled(t) && WithinLimits(limits, started, t) && t.sleep.Value?
  }

  predicate Sampled(t: Tick) {
    t.clock.Value? && t.rss.Value? && t.free.Value? && t.output.Value?
  }

  predicate WithinLimits(limits: Limits, started: real, t: Tick)
    requires Sampled(t)
  {
    && t.clock.value - started < limits.wallSeconds as real
    && t.rss.value.Some? && 0 <= t.rss.value.value <= limits.rssBytes
    && t.free.value >= limits.freeDiskBytes
    && t.output.value <= limits.ChildOutputBytes()
  }

  ghost predicate AllClean(limits: Limits, started: real, ticks: seq<Tick>) {
    forall k :: 0 <= k < |ticks| ==> Clean(limits, started, ticks[k])
  }

  /** The child is seen to exit in round k, after clean rounds only. */
  predicate ExitsAt(limits: Limits, started: real, ticks: seq<Tick>, k: nat)
    requires k < |ticks|
  {
    (forall j :: 0 <= j < k ==> Clean(limits, started, ticks[j])) && ticks[k].exited == Value(true)
  }

  /** The position of the first round that is not clean, or the end. */
  ghost function FirstUnclean(limits: Limits, started: real, ticks: seq<Tick>): (k: nat)
    ensures k <= |ticks| && forall j :: 0 <= j < k ==> Clean(limits, started, ticks[j])
    ensures k < |ticks| ==> !Clean(limits, started, ticks[k])
  {
    if ticks == [] || !Clean(limits, started, ticks[0]) then 0
    else FirstUnclean(limits, started, ticks[1..]) + 1
  }

  lemma FirstUncleanIs(limits: Limits, started: real, ticks: seq<Tick>, k: nat)
    requires k <= |ticks| && (forall j :: 0 <= j < k ==> Clean(limits, started, ticks[j]))
    requires k < |ticks| ==> !Clean(limits, started, ticks[k])
    ensures FirstUnclean(limits, started, ticks) == k
  {
  }

  /** The round found the child running and its four samples were taken. */
  predicate TookSamples(t: Tick) {
    t.exited == Value(false) && Sampled(t)
  }

  /** How many rounds took samples: the clean ones, and perhaps the first that is not. */
  ghost function SampledRounds(limits: Limits, started: real, ticks: seq<Tick>): (n: nat)
    ensures n <= |ticks| && forall t :: t in ticks[..n] ==> Sampled(t)
  {
    var k := FirstUnclean(limits, started, ticks);
    assert forall t :: t in ticks[..k] ==> exists j :: 0 <= j < k && ticks[..k][j] == t;
    if k < |ticks| && TookSamples(ticks[k]) then
      assert ticks[..k + 1] == ticks[..k] + [ticks[k]];
      k + 1
    else k
  }

  /** The limit a round breaks: the wall limit before the others, the resident size before the
   *  disk, the disk before the output. */
  predicate Breaks(limits: Limits, started: real, t: Tick, reason: Reason)
    requires Sampled(t)
  {
    var inTime := t.clock.value < started + limits.wallSeconds as real;
    var fits := t.rss.value.Some? && 0 <= t.rss.value.value <= limits.rssBytes;
    match reason
    case WallExceeded => !inTime
    case RssUnavailable => inTime && (t.rss.value == None || t.rss.value.value < 0)
    case RssExceeded => inTime && t.rss.value.Some? && t.rss.value.value >= 0 && t.rss.value.value > limits.rssBytes
    case FreeDiskLow => inTime && fits && t.free.value < limits.freeDiskBytes
    case OutputExhausted =>
      inTime && fits && t.free.value >= limits.freeDiskBytes && t.output.value > limits.ChildOutputBytes()
    case _ => false
  }

  /** How the poll loop ends in a round that is not clean. */
  predicate EndsWith(limits: Limits, started: real, t: Tick, end: PollEnd) {
    match end
    case Exited => t.exited == Value(true)
    case Broke(status, reason) =>
      && TookSamples(t) && Breaks(limits, started, t, reason)
      && status == if reason.WallExceeded? then TimedOut else ResourceBreach
    case PollRaised =>
      || t.exited.Raise?
      || (t.exited == Value(false) && !Sampled(t))
      || (TookSamples(t) && WithinLimits(limits, started, t) && t.sleep.Raise?)
    case StillPolling => false
  }

  /** The running extremes after one round; a resident size counts only if it is one and the
   *  wall limit has not passed. */
  function Observe(limits: Limits, started: real, o: Observed, t: Tick): Observed
    requires Sampled(t)
  {
    Observed(
      if t.clock.value - started < limits.wallSeconds as real && t.rss.value.Some? && t.rss.value.value >= 0
        then Max(o.peakRss, t.rss.value.value) else o.peakRss,
      Min(o.minimumDisk, t.free.value),
      Max(o.maximumOutput, t.output.value))
  }

  function ObservedAfter(limits: Limits, started: real, initialDisk: int, ticks: seq<Tick>): Observed
    requires forall t :: t in ticks ==> Sampled(t)
  {
    if ticks == [] then Observed(0, initialDisk, 0)
    else Observe(limits, started, ObservedAfter(limits, started, initialDisk, ticks[..|ticks| - 1]), ticks[|ticks| - 1])
  }

  /** A resident size counts if it is one and was read before the wall limit. */
  predicate Counts(limits: Limits, started: real, t: Tick)
    requires Sampled(t)
  {
    t.clock.value < started + limits.wallSeconds as real && t.rss.value.Some? && 0 <= t.rss.value.value
  }

  /** What is reported are the extremes of what was sampled. */
  lemma {:induction false} ObservedExtremes(limits: Limits, started: real, initialDisk: int, ticks: seq<Tick>)
    requires forall t :: t in ticks ==> Sampled(t)
    ensures var o := ObservedAfter(limits, started, initialDisk, ticks);
      && o.minimumDisk <= initialDisk && o.maximumOutput >= 0 && o.peakRss >= 0
      && (forall t :: t in ticks ==> o.minimumDisk <= t.free.value && t.output.value <= o.maximumOutput)
      && (o.minimumDisk == initialDisk || exists t :: t in ticks && t.free.value == o.minimumDisk)
      && (o.maximumOutput == 0 || exists t :: t in ticks && t.output.value == o.maximumOutput)
      && (o.peakRss == 0 || exists t :: t in ticks && t.rss.value == Some(o.peakRss))
      && (AllClean(limits, started, ticks) ==> forall t :: t in ticks ==> t.rss.value.value <= o.peakRss)
      && (forall t :: t in ticks && Counts(limits, started, t) ==> t.rss.value.value <= o.peakRss)
      && (o.peakRss == 0 || exists t :: t in ticks && Counts(limits, started, t) && t.rss.value == Some(o.peakRss))
  {
    if ticks != [] {
      var shorter, last := ticks[..|ticks| - 1], ticks[|ticks| - 1];
      assert ticks == shorter + [last];
      ObservedExtremes(limits, started, initialDisk, shorter);
      assert AllClean(limits, started, ticks) ==> AllClean(limits, started, shorter) && Clean(limits, started, last);
    }
  }

  /** Compare one round of samples with the limits. */
  method Judge(limits: Limits, started: real, before: Observed, t: Tick)
    returns (breach: Option<(Status, Reason)>, o: Observed)
    requires Sampled(t)
    ensures o == Observe(limits, started, before, t)
    ensures breach.None? <==> WithinLimits(limits, started, t)
    ensures breach.Some? ==> Breaks(limits, started, t, breach.value.1)
    ensures breach.Some? ==> breach.value.0 == if breach.value.1.WallExceeded? then TimedOut else ResourceBreach
  {
    var wall, rss, free, output := t.clock.value - started, t.rss.value, t.free.value, t.output.value;
    o := before.(minimumDisk := Min(before.minimumDisk, free), maximumOutput := Max(before.maximumOutput, output));
    if wall >= limits.wallSeconds as real {
      return Some((TimedOut, WallExceeded)), o;
    }
    if rss.None? || rss.value < 0 {
      return Some((ResourceBreach, RssUnavailable)), o;
    }
    o := o.(peakRss := Max(o.peakRss, rss.value));
    if rss.value > limits.rssBytes {
      return Some((ResourceBreach, RssExceeded)), o;
    }
    if free < limits.freeDiskBytes {
      return Some((ResourceBreach, FreeDiskLow)), o;
    }
    if output > limits.ChildOutputBytes() {
      return Some((ResourceBreach, OutputExhausted)), o;
    }
    return None, o;
  }

  ghost predicate InBounds(limits: Limits, initialDisk: int, o: Observed) {
    && 0 <= o.peakRss <= limits.rssBytes && o.maximumOutput <= limits.ChildOutputBytes()
    && (o.minimumDisk >= limits.freeDiskBytes <==> initialDisk >= limits.freeDiskBytes)
  }

  /** After clean rounds only the free disk at the start can be below its minimum. */
  lemma CleanRoundsStayInBounds(limits: Limits, started: real, initialDisk: int, ticks: seq<Tick>)
    requires limits.Valid() && AllClean(limits, started, ticks)
    ensures InBounds(limits, initialDisk, ObservedAfter(limits, started, initialDisk, ticks))
  {
    ObservedExtremes(limits, started, initialDisk, ticks);
  }

  method Poll(limits: Limits, started: real, initialDisk: int, ticks: seq<Tick>)
    returns (end: PollEnd, rounds: nat, o: Observed)
    ensures rounds <= |ticks| && forall t :: t in ticks[..rounds] ==> Sampled(t)
    ensures o == ObservedAfter(limits, started, initialDisk, ticks[..rounds])
    ensures end.Exited? ==> rounds < |ticks| && ExitsAt(limits, started, ticks, rounds)
    ensures (exists k :: 0 <= k < |ticks| && ExitsAt(limits, started, ticks, k)) ==> end.Exited?
    ensures end.StillPolling? <==> AllClean(limits, started, ticks)
    ensures end.Broke? ==> end.status.TimedOut? || end.status.ResourceBreach?
    ensures var k := FirstUnclean(limits, started, ticks);
      if k == |ticks| then end.StillPolling? else EndsWith(limits, started, ticks[k], end)
    ensures rounds == SampledRounds(limits, started, ticks)
  {
    o := Observed(0, initialDisk, 0);
    rounds := 0;
    while rounds < |ticks|
      invariant 0 <= rounds <= |ticks|
      invariant forall j :: 0 <= j < rounds ==> Clean(limits, started, ticks[j])
      invariant forall t :: t in ticks[..rounds] ==> Sampled(t)
      invariant o == ObservedAfter(limits, started, initialDisk, ticks[..rounds])
    {
      var t := ticks[rounds];
      assert forall m :: rounds < m < |ticks| && ExitsAt(limits, started, ticks, m) ==> Clean(limits, started, t);
      if !Clean(limits, started, t) {
        FirstUncleanIs(limits, started, ticks, rounds);
      }
      if t.exited.Raise? {
        return PollRaised, rounds, o;
      }
      if t.exited.value {
        return Exited, rounds, o;
      }
      if !Sampled(t) {
        return PollRaised, rounds, o;
      }
      assert ticks[..rounds + 1] == ticks[..rounds] + [t];
      var breach;
      breach, o := Judge(limits, started, o, t);
      rounds := rounds + 1;
      if breach.Some? {
        return Broke(breach.value.0, breach.value.1), rounds, o;
      }
      if t.sleep.Raise? {
        return PollRaised, rounds, o;
      }
    }
    FirstUncleanIs(limits, started, ticks, rounds);
    return StillPolling, rounds, o;
  }

  // ----- What a script amounts to ----------------------------------------------------------------

  predicate Reserved(limits: Limits, s: Script) {
    s.binding.Value? && s.freeBefore.Value? && s.freeBefore.value >= limits.freeDiskBytes && s.reserve.Value?
  }

  /** The slot was reserved and the two reads after it succeeded. */
  predicate Started(limits: Limits, s: Script) {
    Reserved(limits, s) && s.freeAtStart.Value? && s.started.Value?
  }

  predicate Spawned(s: Script) {
    s.validateSlot == s.reserve && s.validatePlan.Value? && s.prepareFiles.Value? && s.spawn.Value?
  }

  /** A process that was spawned had its group validated and was cleaned up. */
  ghost predicate CleanedUp(s: Script) {
    Spawned(s) ==> GroupMatches(s) && s.cleanup.Value?
  }

  predicate FinalSampled(s: Script) {
    && s.finalClock.Value? && s.directoryExists.Value?
    && (s.directoryExists.value ==> s.finalFree.Value? && s.finalOutput.Value?)
  }

  /** The script ends while the supervisor still validates the group or still polls. */
  ghost predicate NeverEnds(limits: Limits, s: Script) {
    && Started(limits, s) && Spawned(s)
    && (NeverSettles(s) || (GroupMatches(s) && AllClean(limits, s.started.value, s.ticks)))
  }

  ghost predicate MayRelease(limits: Limits, s: Script) {
    Started(limits, s) && !NeverEnds(limits, s) && CleanedUp(s) && FinalSampled(s)
  }

  /** The cases in which a reserved slot is not asked back: one of the two reads right after the
   *  reservation raises, the script ends first, a final sample cannot be taken, or a spawned
   *  child was not cleaned up for certain. */
  ghost predicate RetainsSlot(limits: Limits, s: Script) {
    && Reserved(limits, s)
    && (|| s.freeAtStart.Raise? || s.started.Raise?
        || NeverEnds(limits, s) || !FinalSampled(s)
        || (Spawned(s) && (!GroupMatches(s) || s.cleanup.Raise?)))
  }

  lemma RetainedUnlessReleased(limits: Limits, s: Script)
    ensures RetainsSlot(limits, s) <==> Reserved(limits, s) && !MayRelease(limits, s)
  {
  }

  /** Everything that has to go well. The final clock only has to be read, and whether the
   *  output files could be closed does not matter. */
  ghost predicate Succeeds(limits: Limits, s: Script) {
    && Started(limits, s) && s.freeAtStart.value >= limits.freeDiskBytes
    && Spawned(s) && GroupMatches(s)
    && (exists k :: 0 <= k < |s.ticks| && ExitsAt(limits, s.started.value, s.ticks, k))
    && s.exitedAfter == Value(true) && s.returncode == Some(0)
    && s.cleanup.Value? && FinalSampled(s)
    && (s.directoryExists.value ==>
          s.finalFree.value >= limits.freeDiskBytes && s.finalOutput.value <= limits.ChildOutputBytes())
    && s.revalidatePlan.Value? && s.verify == Value(Artifacts(true))
    && s.release == s.reserve
    && s.receiptExists.Value? && (s.receiptExists.value ==> s.writeReceipt.Value?)
  }

  // ----- What is reported ----------------------------------------------------------------------

  /** The child ran and its group was validated, so that it was polled. */
  ghost predicate Polled(s: Script) {
    Spawned(s) && GroupMatches(s)
  }

  /** The poll loop ended, and this is the round in which it did. */
  ghost predicate PollEndsIn(limits: Limits, s: Script, k: nat) {
    && s.started.Value? && k < |s.ticks| && !Clean(limits, s.started.value, s.ticks[k])
    && forall j :: 0 <= j < k ==> Clean(limits, s.started.value, s.ticks[j])
  }

  /** The poll loop ended with this. */
  ghost predicate PollEnds(limits: Limits, s: Script, end: PollEnd) {
    && Polled(s)
    && exists k: nat :: PollEndsIn(limits, s, k) && EndsWith(limits, s.started.value, s.ticks[k], end)
  }

  /** One of the free disk readings that were taken is below the limit. */
  ghost predicate DiskUnder(limits: Limits, s: Script) {
    || (s.freeAtStart.Value? && s.freeAtStart.value < limits.freeDiskBytes)
    || (Polled(s) && exists k: nat :: PollEndsIn(limits, s, k) && TookSamples(s.ticks[k])
                                 && s.ticks[k].free.value < limits.freeDiskBytes)
    || (s.directoryExists == Value(true) && s.finalFree.Value? && s.finalFree.value < limits.freeDiskBytes)
  }

  /** One of the output sizes that were taken is above the limit. */
  ghost predicate OutputOver(limits: Limits, s: Script) {
    || (Polled(s) && exists k: nat :: PollEndsIn(limits, s, k) && TookSamples(s.ticks[k])
                                 && s.ticks[k].output.value > limits.ChildOutputBytes())
    || (s.directoryExists == Value(true) && s.finalOutput.Value? && s.finalOutput.value > limits.ChildOutputBytes())
  }

  /** Cleaned up, released, and within the limits at every reading of disk and output: only then
   *  does the report say how the child ended. */
  ghost predicate Calm(limits: Limits, s: Script) {
    CleanedUp(s) && s.release == s.reserve && !DiskUnder(limits, s) && !OutputOver(limits, s)
  }

  /** The child was seen to exit, twice and with code 0, and its artifacts were verified. */
  ghost predicate Completes(limits: Limits, s: Script) {
    && CleanedUp(s) && !DiskUnder(limits, s) && !OutputOver(limits, s) && PollEnds(limits, s, Exited)
    && s.exitedAfter.Value? && s.exitedAfter.value && s.returncode == Some(0)
    && s.revalidatePlan.Value? && s.verify == Value(Artifacts(true))
  }

  /** The exact condition of every report of a finished run. */
  ghost predicate ReportedAs(limits: Limits, s: Script, status: Status, reason: Option<Reason>) {
    match status
    case CleanupFailure =>
      && Spawned(s)
      && (|| (reason == Some(GroupUnverified) && !GroupMatches(s))
          || (reason == Some(Exception) && GroupMatches(s) && s.cleanup.Raise?))
    case SlotReleaseFailure => reason == Some(Exception) && CleanedUp(s) && s.release != s.reserve
    case ResourceBreach =>
      && CleanedUp(s) && s.release == s.reserve
      && (|| (reason == Some(FinalDiskLow) && DiskUnder(limits, s))
          || (reason == Some(FinalOutputExceeded) && !DiskUnder(limits, s) && OutputOver(limits, s))
          || ((reason == Some(RssUnavailable) || reason == Some(RssExceeded)) && Calm(limits, s)
              && PollEnds(limits, s, Broke(ResourceBreach, reason.value))))
    case TimedOut =>
      reason == Some(WallExceeded) && Calm(limits, s) && PollEnds(limits, s, Broke(TimedOut, WallExceeded))
    case PreconditionFailure =>
      && reason == Some(Exception) && Calm(limits, s)
      && (|| !Spawned(s) || PollEnds(limits, s, PollRaised)
          || (PollEnds(limits, s, Exited)
              && (s.exitedAfter.Raise? || (!s.exitedAfter.value && s.closeFiles.Raise?))))
    case Running =>
      && reason == None && Calm(limits, s) && PollEnds(limits, s, Exited)
      && s.exitedAfter.Value? && !s.exitedAfter.value && s.closeFiles.Value?
    case ChildFailure =>
      && reason == Some(ExitCode) && Calm(limits, s) && PollEnds(limits, s, Exited)
      && s.exitedAfter.Value? && s.exitedAfter.value && s.returncode != Some(0)
    case ArtifactFailure =>
      && reason == Some(Exception) && Calm(limits, s) && PollEnds(limits, s, Exited)
      && s.exitedAfter.Value? && s.exitedAfter.value && s.returncode == Some(0)
      && (s.revalidatePlan.Raise? || s.verify != Value(Artifacts(true)))
    case Succeeded => reason == None && s.release == s.reserve && Completes(limits, s)
    case ChildExited => false
  }

  lemma PollEndsOnce(limits: Limits, s: Script, end: PollEnd, end': PollEnd)
    requires PollEnds(limits, s, end) && PollEnds(limits, s, end')
    ensures end == end'
  {
    var k: nat :| PollEndsIn(limits, s, k) && EndsWith(limits, s.started.value, s.ticks[k], end);
    var j: nat :| PollEndsIn(limits, s, j) && EndsWith(limits, s.started.value, s.ticks[j], end');
    assert k == j;
  }

  /** No script is reported in two ways, so that each condition is necessary and sufficient. */
  lemma ReportIsUnique(limits: Limits, s: Script, status: Status, reason: Option<Reason>,
                       status': Status, reason': Option<Reason>)
    requires ReportedAs(limits, s, status, reason) && ReportedAs(limits, s, status', reason')
    ensures status == status' && reason == reason'
  {
    forall end, end' | PollEnds(limits, s, end) && PollEnds(limits, s, end')
      ensures end == end'
    {
      PollEndsOnce(limits, s, end, end');
    }
  }

  /** A breach of disk or output found while polling is never the reason that is reported: the
   *  final samples find it again, or the cleanup or the release failed. */
  lemma PolledBreachesAreRenamed(limits: Limits, s: Script, status: Status, reason: Reason)
    requires ReportedAs(limits, s, status, Some(reason))
    requires PollEnds(limits, s, Broke(ResourceBreach, FreeDiskLow))
      || PollEnds(limits, s, Broke(ResourceBreach, OutputExhausted))
    ensures reason.FinalDiskLow? || reason.FinalOutputExceeded? || reason.Exception?
    ensures reason.Exception? ==> status.CleanupFailure? || status.SlotReleaseFailure?
  {
    var end := if PollEnds(limits, s, Broke(ResourceBreach, FreeDiskLow)) then Broke(ResourceBreach, FreeDiskLow)
      else Broke(ResourceBreach, OutputExhausted);
    var k: nat :| PollEndsIn(limits, s, k) && EndsWith(limits, s.started.value, s.ticks[k], end);
    assert DiskUnder(limits, s) || OutputOver(limits, s);
  }

  // ----- The supervisor --------------------------------------------------------------------------

  datatype Attempt = Attempt(status: Status, reason: Option<Reason>, spawned: bool, validated: bool, o: Observed)

  /** Where the poll loop leaves the status and the reason, after a second look at the child and
   *  the closing of its output files. */
  function AfterPoll(s: Script, end: PollEnd): (Status, Option<Reason>) {
    match end
    case Broke(status, reason) => (status, Some(reason))
    case Exited =>
      if s.exitedAfter.Value? && s.exitedAfter.value then
        (ChildExited, if s.closeFiles.Raise? then Some(Exception) else None)
      else if s.exitedAfter.Raise? || s.closeFiles.Raise? then (PreconditionFailure, Some(Exception))
      else (Running, None)
    case _ => (PreconditionFailure, Some(Exception))
  }

  /** The extremes before the final samples. */
  ghost function ObservedBefore(limits: Limits, s: Script): Observed
    requires s.started.Value? && s.freeAtStart.Value?
  {
    if Polled(s) then
      ObservedAfter(limits, s.started.value, s.freeAtStart.value,
                    s.ticks[..SampledRounds(limits, s.started.value, s.ticks)])
    else Observed(0, s.freeAtStart.value, 0)
  }

  /** What the attempt is for this script. */
  ghost predicate AttemptFits(limits: Limits, s: Script, a: Attempt)
    requires Started(limits, s)
  {
    && (a.spawned <==> Spawned(s)) && (a.validated <==> Polled(s))
    && a.o == ObservedBefore(limits, s)
    && if Polled(s) then exists end :: PollEnds(limits, s, end) && (a.status, a.reason) == AfterPoll(s, end)
       else a.status == PreconditionFailure && a.reason == Some(Exception)
  }

  /** The try block: up to the moment the child has ended or something was wrong. None when the
   *  script ends first. */
  method RunChild(limits: Limits, s: Script) returns (r: Option<Attempt>, events: seq<Event>)
    requires limits.Valid() && Started(limits, s)
    ensures r.None? <==> NeverEnds(limits, s)
    ensures events ==
      (if Spawned(s) then [ChildSpawned] else [])
      + (if Spawned(s) && GroupMatches(s) then [GroupValidated] else [])
    ensures r.Some? ==>
      && (r.value.spawned <==> Spawned(s)) && (r.value.validated <==> Spawned(s) && GroupMatches(s))
      && (r.value.status.ChildExited? <==>
            && r.value.validated && s.exitedAfter == Value(true)
            && exists k :: 0 <= k < |s.ticks| && ExitsAt(limits, s.started.value, s.ticks, k))
      && !(r.value.status in {CleanupFailure, Succeeded, ArtifactFailure, ChildFailure, SlotReleaseFailure})
      && (r.value.status.ChildExited? ==> InBounds(limits, s.freeAtStart.value, r.value.o))
    ensures r.Some? ==> AttemptFits(limits, s, r.value)
  {
    events := [];
    var o := Observed(0, s.freeAtStart.value, 0);
    if s.validateSlot.Raise? || s.validateSlot.value != s.reserve.value
       || s.validatePlan.Raise? || s.prepareFiles.Raise? || s.spawn.Raise? {
      return Some(Attempt(PreconditionFailure, Some(Exception), false, false, o)), [];
    }
    events := [ChildSpawned];
    var group := ValidateProcessGroup(s);
    if group.None? {
      return None, events;
    }
    if group.value != Value(true) {
      return Some(Attempt(PreconditionFailure, Some(Exception), true, false, o)), events;
    }
    events := events + [GroupValidated];
    var end, rounds;
    end, rounds, o := Poll(limits, s.started.value, s.freeAtStart.value, s.ticks);
    if end.StillPolling? {
      return None, events;
    }
    assert PollEndsIn(limits, s, FirstUnclean(limits, s.started.value, s.ticks));
    assert PollEnds(limits, s, end);
    var status: Status, reason: Option<Reason> := Running, None;
    var raised := end.PollRaised?;
    if end.Broke? {
      status, reason := end.status, Some(end.reason);
    }
    if !raised {
      if s.exitedAfter.Raise? {
        raised := true;
      } else if s.exitedAfter.value && status.Running? {
        status := ChildExited;
      }
    }
    if raised || s.closeFiles.Raise? {
      if reason.None? {
        reason := Some(Exception);
      }
      if status.Running? {
        status := PreconditionFailure;
      }
    }
    if end.Exited? {
      CleanRoundsStayInBounds(limits, s.started.value, s.freeAtStart.value, s.ticks[..rounds]);
    }
    return Some(Attempt(status, reason, true, true, o)), events;
  }

  /** The finally block: cleanup of the child, if there is one. */
  method CleanUp(s: Script, a: Attempt)
    returns (succeeded: bool, status: Status, reason: Option<Reason>, events: seq<Event>)
    ensures succeeded <==> (a.spawned ==> a.validated && s.cleanup.Value?)
    ensures if succeeded then status == a.status && reason == a.reason
      else status == CleanupFailure && reason == Some(if a.validated then Exception else GroupUnverified)
    ensures events == if a.spawned && s.cleanup.Value? then [ChildCleaned] else []
  {
    succeeded, status, reason, events := true, a.status, a.reason, [];
    if a.spawned {
      if s.cleanup.Raise? {
        succeeded, status, reason := false, CleanupFailure, Some(Exception);
      } else {
        events := [ChildCleaned];
      }
      if !a.validated {
        succeeded, status, reason := false, CleanupFailure, Some(GroupUnverified);
      }
    }
  }

  function FinalObserved(s: Script, o: Observed): Observed
    requires FinalSampled(s)
  {
    if s.directoryExists.value
      then Observed(o.peakRss, Min(o.minimumDisk, s.finalFree.value), Max(o.maximumOutput, s.finalOutput.value))
    else o
  }

  /** The final samples; None when reading one of them raises. */
  method FinalSamples(s: Script, o: Observed) returns (r: Option<Observed>)
    ensures r.Some? <==> FinalSampled(s)
    ensures r.Some? ==> r.value == FinalObserved(s, o)
  {
    if s.finalClock.Raise? || s.directoryExists.Raise? {
      return None;
    }
    if !s.directoryExists.value {
      return Some(o);
    }
    if s.finalFree.Raise? || s.finalOutput.Raise? {
      return None;
    }
    return Some(o.(
      minimumDisk := Min(o.minimumDisk, s.finalFree.value),
      maximumOutput := Max(o.maximumOutput, s.finalOutput.value)));
  }

  ghost function VerdictOnChild(limits: Limits, s: Script, spawned: bool, status: Status, reason: Option<Reason>,
                                o: Observed): (Status, Option<Reason>)
  {
    if o.minimumDisk < limits.freeDiskBytes then (ResourceBreach, Some(FinalDiskLow))
    else if o.maximumOutput > limits.ChildOutputBytes() then (ResourceBreach, Some(FinalOutputExceeded))
    else if !status.ChildExited? then (status, reason)
    else if !spawned || s.returncode != Some(0) then (ChildFailure, Some(ExitCode))
    else if s.revalidatePlan.Value? && s.verify == Value(Artifacts(true)) then (Succeeded, None)
    else (ArtifactFailure, Some(Exception))
  }

  /** From the final samples to the verdict on the child. */
  method Conclude(limits: Limits, s: Script, cleaned: bool, spawned: bool, status0: Status,
                  reason0: Option<Reason>, o: Observed)
    returns (status: Status, reason: Option<Reason>, events: seq<Event>)
    requires !status0.Succeeded? && (cleaned ==> !status0.CleanupFailure?) && !status0.SlotReleaseFailure?
    ensures status.Succeeded? <==>
      && cleaned && spawned && status0.ChildExited? && s.returncode == Some(0)
      && o.maximumOutput <= limits.ChildOutputBytes() && o.minimumDisk >= limits.freeDiskBytes
      && s.revalidatePlan.Value? && s.verify == Value(Artifacts(true))
    ensures status.Succeeded? ==> reason.None?
    ensures !status.SlotReleaseFailure? && (status.CleanupFailure? <==> status0.CleanupFailure?)
    ensures cleaned ==> (status, reason) == VerdictOnChild(limits, s, spawned, status0, reason0, o)
    ensures !cleaned && !status0.ChildExited? ==> status == status0 && reason == reason0
    ensures events == if status.Succeeded? then [CompletionVerified] else []
  {
    status, reason, events := status0, reason0, [];
    if cleaned && o.maximumOutput > limits.ChildOutputBytes() {
      status, reason := ResourceBreach, Some(FinalOutputExceeded);
    }
    if cleaned && o.minimumDisk < limits.freeDiskBytes {
      status, reason := ResourceBreach, Some(FinalDiskLow);
    }
    if cleaned && spawned && s.returncode == Some(0) && status.ChildExited? {
      if s.revalidatePlan.Raise? || s.verify.Raise? || s.verify.value != Artifacts(true) {
        status, reason := ArtifactFailure, Some(Exception);
      } else {
        status, reason, events := Succeeded, None, [CompletionVerified];
      }
    } else if status.ChildExited? {
      status, reason := ChildFailure, Some(ExitCode);
    }
  }

  /** Ask for the slot back, but only after a successful cleanup. */
  method SettleSlot(s: Script, cleaned: bool, status0: Status, reason0: Option<Reason>)
    returns (status: Status, reason: Option<Reason>, released: bool, events: seq<Event>)
    requires s.reserve.Value? && !status0.SlotReleaseFailure?
    ensures events == if cleaned then [ReleaseRequested(s.reserve.value.id)] else []
    ensures released <==> cleaned && s.release == s.reserve
    ensures if released || !cleaned then status == status0 && reason == reason0
      else status == SlotReleaseFailure && reason == Some(Exception)
  {
    status, reason, released, events := status0, reason0, false, [];
    if cleaned {
      events := [ReleaseRequested(s.reserve.value.id)];
      released := s.release.Value? && s.release.value == s.reserve.value;
      if !released {
        status, reason := SlotReleaseFailure, Some(Exception);
      }
    }
  }

  predicate Releases(events: seq<Event>) {
    exists i :: 0 <= i < |events| && events[i].ReleaseRequested?
  }

  predicate Reserves(events: seq<Event>) {
    exists i :: 0 <= i < |events| && events[i].SlotReserved?
  }

  lemma LastReleases(before: seq<Event>, last: seq<Event>)
    requires !Releases(before) && |last| <= 1
    ensures Releases(before + last) <==> |last| == 1 && last[0].ReleaseRequested?
    ensures forall i :: 0 <= i < |before + last| && (before + last)[i].ReleaseRequested? ==>
      i == |before + last| - 1 && |last| == 1
  {
    if |last| == 1 && last[0].ReleaseRequested? {
      assert (before + last)[|before|].ReleaseRequested?;
    }
  }

  ghost predicate Cleaned(s: Script, a: Attempt) {
    a.spawned ==> a.validated && s.cleanup.Value?
  }

  /** What an attempt and the rest of the script need for a report of success. */
  ghost predicate Concludes(limits: Limits, s: Script, a: Attempt) {
    && a.status.ChildExited? && a.spawned && a.o.minimumDisk >= limits.freeDiskBytes && Cleaned(s, a) && FinalSampled(s)
    && s.returncode == Some(0)
    && (s.directoryExists.value ==>
          s.finalFree.value >= limits.freeDiskBytes && s.finalOutput.value <= limits.ChildOutputBytes())
    && s.revalidatePlan.Value? && s.verify == Value(Artifacts(true))
    && s.release == s.reserve
    && s.receiptExists.Value? && (s.receiptExists.value ==> s.writeReceipt.Value?)
  }

  /** The status and the reason at the end. */
  ghost function Verdict(limits: Limits, s: Script, a: Attempt): (Status, Option<Reason>)
    requires FinalSampled(s)
  {
    if !Cleaned(s, a) then (CleanupFailure, Some(if a.validated then Exception else GroupUnverified))
    else if s.release != s.reserve then (SlotReleaseFailure, Some(Exception))
    else VerdictOnChild(limits, s, a.spawned, a.status, a.reason, FinalObserved(s, a.o))
  }

  /** Everything after the try block. */
  method Finish(limits: Limits, s: Script, a: Attempt) returns (run: Run, events: seq<Event>)
    requires s.reserve.Value?
    requires !(a.status in {CleanupFailure, Succeeded, ArtifactFailure, ChildFailure, SlotReleaseFailure})
    requires a.status.ChildExited? ==> a.o.peakRss <= limits.rssBytes && a.o.maximumOutput <= limits.ChildOutputBytes()
    ensures !run.Unfinished?
    ensures run.Finished? && run.report.ok <==> Concludes(limits, s, a)
    ensures Releases(events) <==> Cleaned(s, a) && FinalSampled(s)
    ensures forall i :: 0 <= i < |events| && events[i].ReleaseRequested? ==>
      i == |events| - 1 && events[i].id == s.reserve.value.id
    ensures ChildSpawned !in events
    ensures Releases(events) && a.spawned ==> ChildCleaned in events
    ensures run.Finished? ==>
      && FinalSampled(s)
      && run.report.ok == run.report.status.Succeeded?
      && (run.report.released <==> Cleaned(s, a) && s.release == s.reserve)
      && (run.report.status.CleanupFailure? <==> !Cleaned(s, a))
      && (run.report.status.SlotReleaseFailure? <==> Cleaned(s, a) && s.release != s.reserve)
    ensures run.Finished? <==>
      FinalSampled(s) && s.receiptExists.Value? && (s.receiptExists.value ==> s.writeReceipt.Value?)
    ensures run.Finished? ==>
      && (run.report.status, run.report.reason) == Verdict(limits, s, a)
      && run.report.observed == FinalObserved(s, a.o) && run.report.receipt == s.receiptExists.value
    ensures ChildCleaned in events <==> a.spawned && s.cleanup.Value?
    ensures CompletionVerified in events <==>
      && FinalSampled(s) && Cleaned(s, a)
      && VerdictOnChild(limits, s, a.spawned, a.status, a.reason, FinalObserved(s, a.o)).0.Succeeded?
    ensures GroupValidated !in events
    ensures run.Finished? && run.report.ok ==>
      && run.report.reason.None? && run.report.released
      && run.report.observed.peakRss == a.o.peakRss && run.report.observed.minimumDisk >= limits.freeDiskBytes
      && run.report.observed.maximumOutput <= limits.ChildOutputBytes()
  {
    var cleaned, status, reason;
    cleaned, status, reason, events := CleanUp(s, a);
    var final := FinalSamples(s, a.o);
    if final.None? {
      return Escaped, events;
    }
    var verdictEvents, released, releaseEvents;
    status, reason, verdictEvents := Conclude(limits, s, cleaned, a.spawned, status, reason, final.value);
    events := events + verdictEvents;
    status, reason, released, releaseEvents := SettleSlot(s, cleaned, status, reason);
    LastReleases(events, releaseEvents);
    events := events + releaseEvents;
    if s.receiptExists.Raise? || (s.receiptExists.value && s.writeReceipt.Raise?) {
      return Escaped, events;
    }
    return Finished(Report(status.Succeeded?, status, reason, released, s.receiptExists.value, final.value)), events;
  }

  /** Which samples pull the reported extremes over the limits. */
  lemma ExtremesOverLimits(limits: Limits, s: Script)
    requires limits.Valid() && Started(limits, s) && FinalSampled(s)
    requires Polled(s) ==> !AllClean(limits, s.started.value, s.ticks)
    ensures var o := FinalObserved(s, ObservedBefore(limits, s));
      && (o.minimumDisk < limits.freeDiskBytes <==> DiskUnder(limits, s))
      && (o.maximumOutput > limits.ChildOutputBytes() <==> OutputOver(limits, s))
  {
    if Polled(s) {
      LoopExtremes(limits, s);
    }
  }

  lemma LoopExtremes(limits: Limits, s: Script)
    requires limits.Valid() && Started(limits, s) && Polled(s) && !AllClean(limits, s.started.value, s.ticks)
    ensures var o := ObservedBefore(limits, s);
      && (o.minimumDisk < limits.freeDiskBytes <==>
            || s.freeAtStart.value < limits.freeDiskBytes
            || exists k: nat :: PollEndsIn(limits, s, k) && TookSamples(s.ticks[k])
                                && s.ticks[k].free.value < limits.freeDiskBytes)
      && (o.maximumOutput > limits.ChildOutputBytes() <==>
            exists k: nat :: PollEndsIn(limits, s, k) && TookSamples(s.ticks[k])
                             && s.ticks[k].output.value > limits.ChildOutputBytes())
  {
    var started, n := s.started.value, FirstUnclean(limits, s.started.value, s.ticks);
    assert n < |s.ticks| && PollEndsIn(limits, s, n);
    var t := s.ticks[n];
    CleanRoundsStayInBounds(limits, started, s.freeAtStart.value, s.ticks[..n]);
    assert forall k: nat :: PollEndsIn(limits, s, k) ==> k == n;
    if TookSamples(t) {
      assert s.ticks[..n + 1][..n] == s.ticks[..n] && s.ticks[..n + 1][n] == t;
    }
  }

  lemma VerdictAfterPoll(limits: Limits, s: Script, a: Attempt, end: PollEnd)
    requires limits.Valid() && Started(limits, s) && FinalSampled(s) && AttemptFits(limits, s, a)
    requires Polled(s) && PollEnds(limits, s, end) && (a.status, a.reason) == AfterPoll(s, end)
    requires Calm(limits, s) && VerdictOnChild(limits, s, a.spawned, a.status, a.reason, FinalObserved(s, a.o))
      == Verdict(limits, s, a)
    requires FinalObserved(s, a.o).minimumDisk >= limits.freeDiskBytes
    requires FinalObserved(s, a.o).maximumOutput <= limits.ChildOutputBytes()
    ensures ReportedAs(limits, s, Verdict(limits, s, a).0, Verdict(limits, s, a).1)
  {
    var k: nat :| PollEndsIn(limits, s, k) && EndsWith(limits, s.started.value, s.ticks[k], end);
    assert end.Broke? && end.reason.FreeDiskLow? ==> DiskUnder(limits, s);
    assert end.Broke? && end.reason.OutputExhausted? ==> OutputOver(limits, s);
  }

  /** What the verdict of the attempt means for the script. */
  lemma VerdictIsReported(limits: Limits, s: Script, a: Attempt)
    requires limits.Valid() && Started(limits, s) && FinalSampled(s) && AttemptFits(limits, s, a)
    requires !NeverEnds(limits, s)
    ensures ReportedAs(limits, s, Verdict(limits, s, a).0, Verdict(limits, s, a).1)
  {
    ExtremesOverLimits(limits, s);
    if Calm(limits, s) && Polled(s) {
      var end :| PollEnds(limits, s, end) && (a.status, a.reason) == AfterPoll(s, end);
      VerdictAfterPoll(limits, s, a, end);
    }
  }

  lemma CompletionIsVerified(limits: Limits, s: Script, a: Attempt)
    requires limits.Valid() && Started(limits, s) && FinalSampled(s) && AttemptFits(limits, s, a) && Cleaned(s, a)
    requires !NeverEnds(limits, s)
    ensures VerdictOnChild(limits, s, a.spawned, a.status, a.reason, FinalObserved(s, a.o)).0.Succeeded?
      <==> Completes(limits, s)
  {
    ExtremesOverLimits(limits, s);
    if Polled(s) {
      var end :| PollEnds(limits, s, end) && (a.status, a.reason) == AfterPoll(s, end);
      if PollEnds(limits, s, Exited) {
        PollEndsOnce(limits, s, end, Exited);
      }
    }
  }

  /** Everything after the slot was reserved and the first two reads succeeded. */
  method RunAndFinish(limits: Limits, s: Script) returns (run: Run, events: seq<Event>)
    requires limits.Valid() && Started(limits, s)
    ensures run.Unfinished? <==> NeverEnds(limits, s)
    ensures Releases(events) <==> MayRelease(limits, s)
    ensures forall i :: 0 <= i < |events| && events[i].ReleaseRequested? ==>
      i == |events| - 1 && events[i].id == s.reserve.value.id
    ensures ChildSpawned in events <==> Spawned(s)
    ensures GroupValidated in events <==> Polled(s)
    ensures ChildCleaned in events <==> !NeverEnds(limits, s) && Spawned(s) && s.cleanup.Value?
    ensures CompletionVerified in events <==> !NeverEnds(limits, s) && FinalSampled(s) && Completes(limits, s)
    ensures run.Finished? <==>
      && !NeverEnds(limits, s) && FinalSampled(s)
      && s.receiptExists.Value? && (s.receiptExists.value ==> s.writeReceipt.Value?)
    ensures run.Finished? ==>
      && ReportedAs(limits, s, run.report.status, run.report.reason)
      && run.report.observed == FinalObserved(s, ObservedBefore(limits, s))
      && run.report.receipt == s.receiptExists.value
      && run.report.ok == run.report.status.Succeeded?
      && (run.report.released <==> MayRelease(limits, s) && s.release == s.reserve)
      && (run.report.status.CleanupFailure? <==> !CleanedUp(s))
      && (run.report.status.SlotReleaseFailure? <==> MayRelease(limits, s) && s.release != s.reserve)
    ensures run.Finished? && run.report.ok <==> Succeeds(limits, s)
    ensures Releases(events) && ChildSpawned in events ==> GroupValidated in events && ChildCleaned in events
    ensures run.Finished? && run.report.ok ==>
      && run.report.reason.None? && run.report.released
      && run.report.observed.peakRss <= limits.rssBytes && run.report.observed.minimumDisk >= limits.freeDiskBytes
      && run.report.observed.maximumOutput <= limits.ChildOutputBytes()
  {
    var attempt, childEvents := RunChild(limits, s);
    if attempt.None? {
      return Unfinished, childEvents;
    }
    var lastEvents;
    run, lastEvents := Finish(limits, s, attempt.value);
    events := childEvents + lastEvents;
    ReleasesAtTheEnd(childEvents, lastEvents);
    if FinalSampled(s) {
      VerdictIsReported(limits, s, attempt.value);
      if CleanedUp(s) {
        CompletionIsVerified(limits, s, attempt.value);
      }
    }
  }

  /** `supervise_probe` */
  method SuperviseProbe(limits: Limits, s: Script) returns (run: Run, events: seq<Event>)
    requires limits.Valid()
    ensures run.Finished? && run.report.ok <==> Succeeds(limits, s)
    ensures run.Unfinished? <==> NeverEnds(limits, s)
    // the slot
    ensures Reserves(events) <==> Reserved(limits, s)
    ensures Releases(events) <==> MayRelease(limits, s)
    ensures Reserves(events) && !Releases(events) <==> RetainsSlot(limits, s)
    ensures forall i :: 0 <= i < |events| && events[i].ReleaseRequested? ==>
      i == |events| - 1 && s.reserve.Value? && events[i].id == s.reserve.value.id
    // the child
    ensures ChildSpawned in events <==> Started(limits, s) && Spawned(s)
    ensures GroupValidated in events <==> Started(limits, s) && Polled(s)
    ensures ChildCleaned in events <==>
      Started(limits, s) && !NeverEnds(limits, s) && Spawned(s) && s.cleanup.Value?
    ensures CompletionVerified in events <==>
      Started(limits, s) && !NeverEnds(limits, s) && FinalSampled(s) && Completes(limits, s)
    ensures Releases(events) && ChildSpawned in events ==> GroupValidated in events && ChildCleaned in events
    // the report
    ensures run.Finished? <==>
      && Started(limits, s) && !NeverEnds(limits, s) && FinalSampled(s)
      && s.receiptExists.Value? && (s.receiptExists.value ==> s.writeReceipt.Value?)
    ensures run.Finished? ==>
      && ReportedAs(limits, s, run.report.status, run.report.reason)
      && run.report.ok == run.report.status.Succeeded?
      && run.report.observed == FinalObserved(s, ObservedBefore(limits, s))
      && run.report.receipt == s.receiptExists.value
      && (run.report.released <==> MayRelease(limits, s) && s.release == s.reserve)
      && (run.report.status.CleanupFailure? <==> !CleanedUp(s))
      && (run.report.status.SlotReleaseFailure? <==> MayRelease(limits, s) && s.release != s.reserve)
    ensures run.Finished? && run.report.ok ==>
      && run.report.reason.None? && run.report.released
      && run.report.observed.peakRss <= limits.rssBytes && run.report.observed.minimumDisk >= limits.freeDiskBytes
      && run.report.observed.maximumOutput <= limits.ChildOutputBytes()
  {
    RetainedUnlessReleased(limits, s);
    if s.binding.Raise? || s.freeBefore.Raise? || s.freeBefore.value < limits.freeDiskBytes || s.reserve.Raise? {
      return Escaped, [];
    }
    var reserved := [SlotReserved(s.reserve.value)];
    assert reserved[0].SlotReserved?;
    if s.freeAtStart.Raise? || s.started.Raise? {
      return Escaped, reserved;
    }
    var laterEvents;
    run, laterEvents := RunAndFinish(limits, s);
    events := reserved + laterEvents;
    assert events[0].SlotReserved?;
    ReleasesAtTheEnd(reserved, laterEvents);
  }

  /** Success is the report of that name. */
  lemma SucceedsIff(limits: Limits, s: Script)
    requires limits.Valid() && Started(limits, s)
    ensures Succeeds(limits, s) <==>
      && ReportedAs(limits, s, Succeeded, None) && FinalSampled(s)
      && s.receiptExists.Value? && (s.receiptExists.value ==> s.writeReceipt.Value?)
  {
    forall k | 0 <= k < |s.ticks| && ExitsAt(limits, s.started.value, s.ticks, k)
      ensures PollEndsIn(limits, s, k)
    {
    }
    forall k: nat, j: nat | PollEndsIn(limits, s, k) && PollEndsIn(limits, s, j)
      ensures k == j
    {
    }
    if k: nat :| PollEndsIn(limits, s, k) && EndsWith(limits, s.started.value, s.ticks[k], Exited) {
      assert ExitsAt(limits, s.started.value, s.ticks, k);
    }
  }

  lemma ReleasesAtTheEnd(before: seq<Event>, last: seq<Event>)
    requires !Releases(before)
    requires forall i :: 0 <= i < |last| && last[i].ReleaseRequested? ==> i == |last| - 1
    ensures Releases(before + last) <==> Releases(last)
    ensures forall i :: 0 <= i < |before + last| && (before + last)[i].ReleaseRequested? ==>
      && i == |before + last| - 1 && last != []
      && (before + last)[i] == last[|last| - 1] && last[|last| - 1].ReleaseRequested?
  {
    var all := before + last;
    assert forall k :: 0 <= k < |before| ==> !before[k].ReleaseRequested? && all[k] == before[k];
    if Releases(last) {
      var i :| 0 <= i < |last| && last[i].ReleaseRequested?;
      assert all[|before| + i].ReleaseRequested?;
    }
    forall i | 0 <= i < |all| && all[i].ReleaseRequested?
      ensures i == |all| - 1 && last != [] && all[i] == last[|last| - 1] && last[|last| - 1].ReleaseRequested?
    {
      assert last[i - |before|].ReleaseRequested?;
    }
  }

  // ----- Consequences ------------------------------------------------------------------------------

  /** Success says nothing about the wall clock at the end: only rounds of the poll loop are
   *  compared with the wall limit, so any other final reading would have done as well. */
  lemma FinalWallIsUnchecked(limits: Limits, s: Script, reading: real)
    requires Succeeds(limits, s)
    ensures Succeeds(limits, s.(finalClock := Value(reading)))
  {
    var t := s.(finalClock := Value(reading));
    var k :| 0 <= k < |s.tries| && MatchesAt(s, k);
    assert MatchesAt(t, k);
  }

  /** Nor does it say anything about closing the output files. */
  lemma CloseErrorIsIgnored(limits: Limits, s: Script)
    requires Succeeds(limits, s)
    ensures Succeeds(limits, s.(closeFiles := Raise))
  {
    var t := s.(closeFiles := Raise);
    var k :| 0 <= k < |s.tries| && MatchesAt(s, k);
    assert MatchesAt(t, k);
  }

  /** A child that exits at once, then a slow cleanup: "succeeded" with twice the allowed wall
   *  time, the directory in place and the receipt written. */
  lemma LateSuccess(limits: Limits) returns (s: Script)
    requires limits.Valid()
    ensures Succeeds(limits, s)
    ensures s.directoryExists == Value(true) && s.closeFiles.Value? && s.receiptExists == Value(true)
    ensures s.finalClock.value - s.started.value >= 2.0 * limits.wallSeconds as real
  {
    var token := Token("", "");
    s := Script(
      Value(()), Value(limits.freeDiskBytes), Value(token),
      Value(limits.freeDiskBytes), Value(0.0),
      Value(token), Value(()), Value(()),
      Value(()), Value(0.0), [GroupTry(Value(0.0), Matches, Value(false), Value(()))],
      [Tick(Value(true), Value(0.0), Value(Some(0)), Value(limits.freeDiskBytes), Value(0), Value(()))],
      Value(true), Value(()),
      Value(()), Value(2.0 * limits.wallSeconds as real), Value(true),
      Value(limits.freeDiskBytes), Value(0), Some(0),
      Value(()), Value(Artifacts(true)), Value(token),
      Value(true), Value(()));
    assert MatchesAt(s, 0);
    assert ExitsAt(limits, 0.0, s.ticks, 0);
  }

  /** A run that would have succeeded keeps its slot when a single read outside the try block
   *  raises, before or after the child. */
  lemma OneReadKeepsTheSlot(limits: Limits, s: Script)
    requires Succeeds(limits, s)
    ensures !RetainsSlot(limits, s)
    ensures RetainsSlot(limits, s.(freeAtStart := Raise)) && RetainsSlot(limits, s.(started := Raise))
    ensures RetainsSlot(limits, s.(finalClock := Raise)) && RetainsSlot(limits, s.(directoryExists := Raise))
  {
    var k :| 0 <= k < |s.ticks| && ExitsAt(limits, s.started.value, s.ticks, k);
    assert !Clean(limits, s.started.value, s.ticks[k]);
    var j :| 0 <= j < |s.tries| && MatchesAt(s, j);
    assert !TriesAgain(s.tries[j], s.groupStarted.value + GROUP_VALIDATION_SECONDS);
  }

  /** Every reading is at least `delta` after the one before, the first not before `from`. */
  ghost predicate Advances(readings: seq<Outcome<real>>, from: real, delta: real) {
    && (readings != [] && readings[0].Value? ==> readings[0].value >= from)
    && forall k :: 0 < k < |readings| && readings[k - 1].Value? && readings[k].Value? ==>
         readings[k].value >= readings[k - 1].value + delta
  }

  lemma {:induction false} ReadingsGrow(readings: seq<Outcome<real>>, from: real, delta: real, k: nat)
    requires Advances(readings, from, delta) && k < |readings|
    requires forall j :: 0 <= j <= k ==> readings[j].Value?
    ensures readings[k].value >= from + k as real * delta
  {
    if k > 0 {
      ReadingsGrow(readings, from, delta, k - 1);
      assert k as real * delta == (k - 1) as real * delta + delta;
    }
  }

  function Clocks(ticks: seq<Tick>): seq<Outcome<real>> {
    seq(|ticks|, k requires 0 <= k < |ticks| => ticks[k].clock)
  }

  function TryClocks(tries: seq<GroupTry>): seq<Outcome<real>> {
    seq(|tries|, k requires 0 <= k < |tries| => tries[k].clock)
  }

  /** With a clock that advances by delta per round, n clean rounds take less than the wall
   *  limit: (n - 1) delta < wall. */
  lemma CleanRoundsAreBounded(limits: Limits, started: real, ticks: seq<Tick>, delta: real)
    requires AllClean(limits, started, ticks) && Advances(Clocks(ticks), started, delta) && ticks != []
    ensures (|ticks| - 1) as real * delta < limits.wallSeconds as real
  {
    var k: nat := |ticks| - 1;
    forall j | 0 <= j <= k ensures Clocks(ticks)[j].Value? {
      assert Clean(limits, started, ticks[j]);
    }
    ReadingsGrow(Clocks(ticks), started, delta, k);
    assert Clean(limits, started, ticks[k]);
  }

  lemma GroupRoundsAreBounded(s: Script, delta: real)
    requires NeverSettles(s) && Advances(TryClocks(s.tries), s.groupStarted.value, delta) && s.tries != []
    ensures (|s.tries| - 1) as real * delta < GROUP_VALIDATION_SECONDS
  {
    var deadline := s.groupStarted.value + GROUP_VALIDATION_SECONDS;
    var k: nat := |s.tries| - 1;
    forall j | 0 <= j <= k ensures TryClocks(s.tries)[j].Value? {
      assert TriesAgain(s.tries[j], deadline);
    }
    ReadingsGrow(TryClocks(s.tries), s.groupStarted.value, delta, k);
    assert TriesAgain(s.tries[k], deadline);
  }

  /** The supervisor terminates: with a clock that advances by delta per round, a script with
   *  enough rounds for both loops is never exhausted. */
  lemma SupervisorEnds(limits: Limits, s: Script, delta: real)
    requires Started(limits, s)
    requires s.groupStarted.Value? ==> Advances(TryClocks(s.tries), s.groupStarted.value, delta)
    requires Advances(Clocks(s.ticks), s.started.value, delta)
    requires s.tries != [] && (|s.tries| - 1) as real * delta >= 2.0
    requires s.ticks != [] && (|s.ticks| - 1) as real * delta >= limits.wallSeconds as real
    ensures !NeverEnds(limits, s)
  {
    if NeverSettles(s) {
      GroupRoundsAreBounded(s, delta);
    } else if AllClean(limits, s.started.value, s.ticks) {
      CleanRoundsAreBounded(limits, s.started.value, s.ticks, delta);
    }
  }
}
