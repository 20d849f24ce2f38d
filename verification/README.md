# Oracle composition: verified model

This project models the parts of the oracle-composition repository that hold real algorithms and
protocols, and proves what they promise over all inputs, all runs and all interleavings.

| file | part of the system |
|---|---|
| `Arithmetic.dfy`, `Wrappers.dfy` | absolute value, minimum, maximum; options and results |
| `Digraph.dfy` | worklist reachability and the recursive cycle search, against walks |
| `OracleProgram.dfy`, `ProgramValidator.dfy` | oracle programs, what well-formed means, and the validator |
| `ProgramWalks.dfy` | what acceptance means for walks of any length, and dispatch order |
| `AcceptedPrograms.dfy` | acceptance and reports read off the fields of a program |
| `ScalarGuards.dfy` | Schmitt-trigger guards |
| `PhaseMatchers.dfy`, `RecoveryGates.dfy` | the bounded phase matcher and the recovery gate |
| `ReferenceWindows.dfy` | terminal-hold windows and the tracking wrapper |
| `HeadingUnwrap.dfy`, `RegionVisits.dfy` | heading unwrap, region visits and span encoding |
| `FileSystem.dfy`, `DescriptorIO.dfy` | one directory whose system calls may fail, and the descriptor helpers |
| `BufferedStreams.dfy` | which bytes Python's buffered writer and reader hold, pass on, repeat and drop |
| `ArtifactStreams.dfy`, `StreamPublication.dfy` | the bounded writer, the verified reader, streaming publication |
| `ArtifactReservation.dfy` | reserve a JSON name, exchange the final JSON in, roll back |
| `PublisherRace.dfy` | any number of publishers aimed at one name, as a state machine |
| `ProbeSupervisor.dfy` | the probe supervisor, over every outcome of its dependencies |

Conventions. Floats are reals. `pi` is a positive parameter and SHA-256 a function parameter about
which nothing is assumed; a rolling digest is represented by the bytes it was updated with. A
pose error is an abstract score. Exceptions are values. In `FileSystem.dfy` every system call may
fail without effect; `faults` counts such failures, and the ghost sequence `seen` records what an
observer of one watched name would read after every change, so that a clause about `seen` speaks
about every point of an operation, not only about its end. The ghost set `evidence` records what
successful calls have made sure of: bytes or entries that were synced, files that were read back
under a name, names that were looked up, so that a body that leaves one of these calls out does not
meet its contract. A `WatchedFile` may be changed by anybody while it is read; its ghost `intact`
says that nobody has done so. In `PublisherRace.dfy` a schedule is a list of (publisher, decision of
the system), one system call per element. In `ProbeSupervisor.dfy` a script fixes what every call to
the outside returns or that it raises.

## What the proofs show about the code

- The wall limit of the probe holds for every round of the poll loop only. The reading taken after
  cleanup is reported but not compared, so a run can be reported as succeeded with any final
  reading (`ProbeSupervisor.FinalWallIsUnchecked`; `LateSuccess` is a whole run with twice the
  allowed time). `SuperviseProbe` therefore states the exact condition of success.
- An error while closing the output files after the child was seen to exit does not keep a run
  from succeeding (`ProbeSupervisor.CloseErrorIsIgnored`).
- Every report of a finished run is exact (`ProbeSupervisor.ReportedAs`, unique by `ReportIsUnique`).
  A breach of disk or output that ended the polling is never reported under its own reason: the final
  samples find it again and rename it, or the cleanup or the release failed
  (`PolledBreachesAreRenamed`). For the same reason a child stopped at the wall limit is reported as a
  resource breach if one reading of disk or output was out of bounds.
- A child that looks ended and then does not at the second look is reported with the status "running",
  unless something else went wrong (`ProbeSupervisor.ReportedAs`).
- A reserved slot is not asked back when one of the two reads right after the reservation, or one
  of the final samples, raises: these stand outside the try block. `SuperviseProbe` states all
  cases, and `OneReadKeepsTheSlot` shows four of them at every run that would have succeeded.
- The per-recovery-mode edge checks of the validator never decide anything alone
  (`ProgramWalks.RecoveryEdgesFollow`).
- Where names are repeated, the validator's dwell check looks at the first mode of the name, its kind
  checks look at the last, and its unit check at the last signal
  (`AcceptedPrograms.DwellReports`, `KindReports`, `UnitReports`).
- The mismatch error of Study 019's heading cross-check cannot be raised
  (`HeadingUnwrap.CrossCheckedHeading`).
- What a streaming artifact publishes need not be what its writer accepted, although size and digest
  always describe the published bytes. It differs exactly in the runs in which a raw write within the
  limit fails after its first byte (`BufferedStreams.StreamDiffersIff`). There are two kinds. If the
  write was of the buffer, Python's buffered writer keeps all of it and writes the part again
  (`FlushRepeats`). If it was of a value longer than the buffer, which goes straight to the file, the
  part stays there although the value was refused (`DirectWriteLeaves`). Accepted bytes are never lost
  or reordered, and the published byte count equals the number of accepted bytes exactly if nothing is
  surplus, so an owner can tell (`StreamingArtifact.Finalize`).
- A consumer of the verified reader that catches a failed read and reads on may get bytes from further
  on: what the failed read had in hand is digested and dropped, and the session can still exit
  normally (`BufferedStreams.CaughtFailureDrops`). What it got is a prefix of the verified string if no
  dropped byte precedes the last one it got, and for a string of distinct bytes only then
  (`ArtifactStreams.VerifiedSession`).
- If the fstat right after the pending entry of a JSON finalization was created fails, the cleanup
  clause is skipped and one hidden empty file stays (`ReservedJsonArtifact.Finalize`).
- The phase matcher cannot fail on given nominal phases, whatever the pose errors, exactly when
  they are feasible in the sense of `PhaseMatchers.Feasible`, a condition on the phases alone
  (`FeasibleIff`). Phases that never decrease and advance by at most the bound are feasible
  (`PacedPhasesAreFeasible`); they are not the only ones (`UnpacedRunCanBeSafe`), and others do fail
  (`UnpacedRunFails`).

## Model

| member | source | states |
|---|---|---|
| Digraph.PathReachable | src/oracle_composition/contracts/program.py:304-316 | the worklist result is exactly the set of nodes joined to the start by a walk; the worklist terminates |
| Digraph.CycleSearch.Visit | src/oracle_composition/contracts/program.py:323-333 | a visit that finds something witnesses a closed walk; otherwise the stack is restored, visited only grows and the finished nodes stay closed and cycle-free |
| Digraph.HasDirectedCycle | src/oracle_composition/contracts/program.py:319-335 | true exactly when a nonempty directed cycle exists, with one visited set shared by all roots |
| Digraph.JoinedReverse | src/oracle_composition/contracts/program.py:559-565 | a walk in the reversed graph is a walk of the graph the other way round |
| Digraph.AcyclicWalkLength | src/oracle_composition/contracts/program.py:548-552 | a walk in an acyclic graph has at most as many nodes as the graph |
| ProgramValidator.ValidateProgram | src/oracle_composition/contracts/program.py:403-569 | a violation is reported exactly when the program has it, and none exactly when the program is well formed |
| ProgramValidator.RuleErrors | src/oracle_composition/contracts/program.py:468-526 | the rule loop reports exactly the rule violations and fills the edge, zero-dwell and outgoing tables with what their definitions say |
| ProgramValidator.DegreeErrors | src/oracle_composition/contracts/program.py:528-533 | terminal modes with and other modes without outgoing rules are what is reported |
| ProgramValidator.RecoveryErrors | src/oracle_composition/contracts/program.py:534-546 | recovery modes without an incoming recovery or outgoing rejoin edge are what is reported |
| ProgramValidator.TerminalReaching | src/oracle_composition/contracts/program.py:559-565 | the union of reverse worklists is the set of modes with a forward path to a terminal |
| ProgramValidator.PathErrors | src/oracle_composition/contracts/program.py:548-568 | zero-dwell cycle, unreachable modes and modes without a path to a terminal are what is reported |
| ProgramValidator.NoViolationIffWellFormed | src/oracle_composition/contracts/program.py:403-569 | the single violations and the declarative well-formedness predicate agree |
| AcceptedPrograms.AcceptedIff | src/oracle_composition/contracts/program.py:403-569 | a program is accepted if and only if its fields say so: identifier, bounds of horizon and queries, spans within the reference, dwells, signals and units, kinds at both ends of every rule, no zero-dwell chain of rules back to its start, every mode entered and left towards a terminal by chains of rules |
| AcceptedPrograms.HeaderReports | src/oracle_composition/contracts/program.py:407-427 | the exact fields for which each header fault is reported |
| AcceptedPrograms.SpanReports | src/oracle_composition/contracts/program.py:456-459 | a span is reported for exactly the names of modes that stop after the last frame, or after 0 without a reference |
| AcceptedPrograms.IdentifierExamples | src/oracle_composition/contracts/program.py:17 | names that are and are not identifiers |
| AcceptedPrograms.DwellReports | src/oracle_composition/contracts/program.py:506-508 | the dwell fault is decided by the first mode of the source's name |
| AcceptedPrograms.UnitReports | src/oracle_composition/contracts/program.py:477-485 | the unit fault is decided by the last signal of the phase's name |
| AcceptedPrograms.KindReports | src/oracle_composition/contracts/program.py:509-526 | the five kind faults are decided by the last modes of the two names |
| ProgramWalks.ZeroDwellStretchIsShort | src/oracle_composition/contracts/program.py:501-504 | in an accepted program a stretch of zero-dwell rules is shorter than the number of modes |
| ProgramWalks.DwellGrowsAlongWalks | src/oracle_composition/contracts/program.py:548-552 | the minimum dwell along a walk of n rules is at least floor(n / number of modes) |
| ProgramWalks.RecoveriesBalance | src/oracle_composition/contracts/program.py:509-526 | along every walk from outside recovery, recovery and rejoin edges balance up to the mode it ends in |
| ProgramWalks.RecoveriesBalanceFromEntry | src/oracle_composition/contracts/program.py:509-546 | the same from the entry mode, and no step joins two recovery modes |
| ProgramWalks.RejoinIsNotRecovery | src/oracle_composition/contracts/program.py:511-526 | recovery modes are never adjacent |
| ProgramWalks.RecoveryEdgesFollow | src/oracle_composition/contracts/program.py:534-546 | the per-recovery-mode edge checks follow from reachability and the edge-kind rules |
| ProgramWalks.RecoveringIsAccepted | src/oracle_composition/contracts/program.py:403-569 | a program with a recovery mode on a cycle is accepted and has walks of every length, so what is proved of accepted programs is about such programs |
| ProgramWalks.RecoveringExists | src/oracle_composition/contracts/program.py:403-569 | one concrete program has that shape |
| ProgramWalks.OutgoingSorts | src/oracle_composition/contracts/program.py:376-382 | dispatch order holds exactly the rules leaving the mode, by rising priority |
| ProgramWalks.OutgoingIsStable | src/oracle_composition/contracts/program.py:376-382 | rules of equal priority are dispatched in the order in which the program lists them |
| ProgramWalks.DispatchIsDeterministic | src/oracle_composition/contracts/program.py:495-500 | in an accepted program the priorities in dispatch order rise strictly |
| OracleProgram.FirstModeLookup | src/oracle_composition/contracts/program.py:370-374 | looking a mode up fails exactly when no mode has the name, and otherwise returns one that has it |
| ScalarGuards.ActivationPersists | src/oracle_composition/contracts/program.py:189-203 | a value that switches an inactive guard on keeps an active one on, for all four operators |
| ScalarGuards.OperatorsRead | src/oracle_composition/contracts/program.py:189-203 | for each operator, the exact values at which an inactive and an active guard holds, ends included |
| ScalarGuards.SettledIff | src/oracle_composition/contracts/program.py:189-203 | over a run the guard is on if and only if it was switched on, or was on at the start, and no later sample switched it off |
| ScalarGuards.OppositeFlipsAreApart | src/oracle_composition/contracts/program.py:157-161 | values that switch the guard on and off are at least the hysteresis apart |
| ScalarGuards.FlipsCostVariation | src/oracle_composition/contracts/program.py:189-203 | n + 1 flips of a guard fed its own last result need a total variation of at least n times the hysteresis |
| RecoveryGates.RecoveryGate.Step | src/oracle_composition/experiments/exploratory_phase.py:426-490 | the decision is what the observation history calls for, and the counters stay the trailing run lengths of that history; bad input changes nothing |
| RecoveryGates.DecisionReadsThresholds | src/oracle_composition/experiments/exploratory_phase.py:442-490 | a decision in terms of the thresholds: which reasons in which order, entry, exit, mode and weight |
| RecoveryGates.ValidThresholds | src/oracle_composition/experiments/exploratory_phase.py:378-396 | the thresholds that are accepted, exit strictly inside entry |
| RecoveryGates.RecoveryGate.Reset | src/oracle_composition/experiments/exploratory_phase.py:421-424 | the history starts anew |
| RecoveryGates.TrackingStep | src/oracle_composition/experiments/exploratory_phase.py:451-467 | while tracking, the dwell counter decides entry exactly as the run of bad pose errors since tracking resumed does |
| RecoveryGates.RecoveringStep | src/oracle_composition/experiments/exploratory_phase.py:468-478 | while recovering, exit happens exactly after `exit_stable_steps` consecutive stable observations |
| RecoveryGates.NextFollows | src/oracle_composition/experiments/exploratory_phase.py:450-490 | the decision computed from the counters is the one the history machine gives, and the counters represent the longer history |
| RecoveryGates.FullWeightIsSafe | src/oracle_composition/experiments/exploratory_phase.py:380-396 | every step with residual weight 1 has its height within the entry bounds and its posture above the entry threshold, and among the last `entry_pose_error_dwell_steps` pose errors one is within its threshold |
| RecoveryGates.NoEntryAndExit | src/oracle_composition/experiments/exploratory_phase.py:390-396 | no step both enters and exits recovery |
| RecoveryGates.ChatterBound | src/oracle_composition/experiments/exploratory_phase.py:463-478 | E entries need at least (E - 1)(exit_stable_steps + 1) + 1 steps |
| PhaseMatchers.BaselineIsClampedNominal | src/oracle_composition/experiments/exploratory_phase.py:255-301 | the closest candidate is the nominal phase clamped to the candidate range |
| PhaseMatchers.SelectionIsNearOptimal | src/oracle_composition/experiments/exploratory_phase.py:297-309 | the chosen score is within `switch_margin` of the minimum, and the baseline is left only for a gain strictly above it |
| PhaseMatchers.AcceptedMatchers | src/oracle_composition/experiments/exploratory_phase.py:51-92 | the configurations and lengths of reference that are accepted |
| PhaseMatchers.CandidatesAreLeashed | src/oracle_composition/experiments/exploratory_phase.py:255-273 | the candidates are exactly the phases in the reference, within the radius of the clamped nominal phase, and between the previous phase and its furthest advance |
| PhaseMatchers.SelectionCosts | src/oracle_composition/experiments/exploratory_phase.py:274-320 | with pose error plus anchor penalty times squared distance as cost: the selected candidate costs at most the margin more than any other, the best is the first of the cheapest, the gain is the difference, and the baseline, the closest candidate, is left only for a gain above the margin |
| PhaseMatchers.RefusedCalls | src/oracle_composition/experiments/exploratory_phase.py:232-241 | which nominal and previous phases are refused, and for what |
| PhaseMatchers.AnchorPenaltyCounts | src/oracle_composition/experiments/exploratory_phase.py:297-309 | four pose errors of which the smallest is not selected, because of the penalty |
| PhaseMatchers.OverlapErrorIff | src/oracle_composition/experiments/exploratory_phase.py:255-268 | the no-overlap error is raised exactly when the previous phase lies too far from the leash on one side |
| PhaseMatchers.PacedRunsAreFeasible | src/oracle_composition/experiments/exploratory_phase.py:223-273 | a paced run of any length never fails, and every selection stays within the radius and never goes back |
| PhaseMatchers.SelectionsAdvanceBoundedly | src/oracle_composition/experiments/exploratory_phase.py:259-264 | over k calls the selection advances by at most k times the bound |
| PhaseMatchers.FeasibleIff | src/oracle_composition/experiments/exploratory_phase.py:255-268 | no run over given nominal phases fails, whatever the pose errors, if and only if at every call the leash can be met from the smallest and the largest selection in reach |
| PhaseMatchers.FeasibleRuns | src/oracle_composition/experiments/exploratory_phase.py:255-309 | over feasible phases every run succeeds and its last selection lies between the two ends of the reach |
| PhaseMatchers.SteeredReachesEnd | src/oracle_composition/experiments/exploratory_phase.py:297-309 | both ends of the reach are attained by suitable pose errors |
| PhaseMatchers.PacedPhasesAreFeasible | src/oracle_composition/experiments/exploratory_phase.py:255-268 | phases that never decrease and advance by at most the bound are feasible |
| PhaseMatchers.UnpacedRunCanBeSafe | src/oracle_composition/experiments/exploratory_phase.py:255-268 | pacing is not necessary for feasibility |
| PhaseMatchers.UnpacedRunFails | src/oracle_composition/experiments/exploratory_phase.py:265-268 | one nominal step past the bound can leave no candidate |
| ReferenceWindows.WindowsAgree | src/oracle_composition/development/reference_ablation.py:901-912 | artifact, matcher and prepared-transform windows are the same terminal-hold window |
| ReferenceWindows.ArtifactRows | src/oracle_composition/contracts/reference.py:285-313 | row j is the frame start + j, or the last before the stop; the exact bounds that are refused |
| ReferenceWindows.MatcherRows | src/oracle_composition/experiments/exploratory_phase.py:322-335 | the same for the matcher, from its valid starts |
| ReferenceWindows.TransformRows | src/oracle_composition/development/reference_ablation.py:884-912 | the same for the eight rows of a prepared transform, with the source frame of each |
| ReferenceWindows.NextWindowShifts | src/oracle_composition/envs/reference_tracking.py:128-137 | row j of the next window is row j + 1 of this one, also in the held tail |
| ReferenceWindows.FixedReferenceTracker.Reset | src/oracle_composition/envs/reference_tracking.py:108-122 | the frame restarts at 0 and the rows from frame 0 on are shown, with the error of every failing exit |
| ReferenceWindows.FixedReferenceTracker.Step | src/oracle_composition/envs/reference_tracking.py:124-163 | the frame stays min(steps, n - 1), the reward target is row 1 of the window shown before the action, the rows from the new frame on are shown, and every failing exit has its error |
| ReferenceWindows.TargetsWereVisible | src/oracle_composition/envs/reference_tracking.py:128-141 | after k actions the frame is min(k, n - 1), its successor is row 1 of its window, and in the tail all rows are the last frame |
| HeadingUnwrap.IncrementIsShortestTurn | experiments/018_g1_four_state_reward_loop/criteria.py:48-51 | an increment lies in [-pi, pi] and is congruent to the difference modulo 2 pi |
| HeadingUnwrap.IncrementIsTurn | experiments/018_g1_four_state_reward_loop/criteria.py:48-51 | an increment is a given turn if and only if the turn is congruent to the difference and below pi, or exactly half a turn in the direction of the difference |
| HeadingUnwrap.UnwrappedIsCongruent | experiments/018_g1_four_state_reward_loop/criteria.py:38-53 | the unwrapped heading stays congruent to the signed heading |
| HeadingUnwrap.UnwrapInvertsWrap | experiments/018_g1_four_state_reward_loop/criteria.py:48-53 | for a true path from 0 with turns below pi the unwrapped value is the true heading at every row |
| HeadingUnwrap.UnwrapAtEveryRow | experiments/018_g1_four_state_reward_loop/criteria.py:40-55 | the unwrapped value is the true heading at every row if and only if every turn is recoverable from the readings around it |
| HeadingUnwrap.CollectAfter | experiments/018_g1_four_state_reward_loop/criteria.py:38-55 | the loop accepts exactly the well-formed traces, reports the fault of the first row that is not, and collects the unwrapped after rows |
| HeadingUnwrap.AcceptedTraces | experiments/018_g1_four_state_reward_loop/criteria.py:36-47 | the traces that are accepted, field by field |
| HeadingUnwrap.AfterHeadingsAt | experiments/018_g1_four_state_reward_loop/criteria.py:48-55 | the k-th after heading is the unwrapped heading of all readings up to the k-th after row |
| HeadingUnwrap.TrueHeadingsAreReported | experiments/018_g1_four_state_reward_loop/criteria.py:38-55 | for a true path with turns below pi the after headings are the true headings at exactly the after rows, in order and with their signs |
| HeadingUnwrap.HeadingDiagnostics | experiments/018_g1_four_state_reward_loop/criteria.py:34-62 | the diagnostics are the largest magnitude, the count and the first row of the unwrapped after rows |
| HeadingUnwrap.SignedAfter | experiments/019_g1_crouch_entry_alignment/score.py:551-562 | the second loop computes the same unwrapped after rows |
| HeadingUnwrap.PeakHasMaxAbs | experiments/019_g1_crouch_entry_alignment/score.py:566-568 | the peak by magnitude has the largest magnitude |
| HeadingUnwrap.PeakIsFirst | experiments/019_g1_crouch_entry_alignment/score.py:566-568 | of several values of the largest magnitude the first is the peak, with its sign |
| HeadingUnwrap.CrossCheckedHeading | experiments/019_g1_crouch_entry_alignment/score.py:550-575 | the two implementations agree on every trace, so the mismatch error never fires; first, final and peak signed heading are those of the after headings |
| RegionVisits.VisitsPartition | experiments/017_g1_execution_derived_reference/score.py:314-332 | first and later visits partition all inside indices in order, at the first forward exit |
| RegionVisits.EntryAndExitAreFirst | experiments/017_g1_execution_derived_reference/score.py:316-324 | the entry is the first inside index and the exit the first later row at or past the exit distance |
| RegionVisits.VisitsAreReported | experiments/017_g1_execution_derived_reference/score.py:311-361 | all visits are exactly the rows with progress in the region, the reentries those of them in the after mode, in order, and each span list stands for its part of the visits |
| RegionVisits.SummaryReads | experiments/017_g1_execution_derived_reference/score.py:336-347 | the summary that is accepted: the count of rows inside and the numbers, counted from one, of the first entry and exit |
| RegionVisits.CountsAgree | experiments/015_g1_task_aligned_after/score.py:467-480 | the Study 015 counts are the lengths of the Study 017 index lists |
| RegionVisits.ContiguousSpans | experiments/017_g1_execution_derived_reference/score.py:284-295 | the encoding loop computes the span list that grows by one index at a time |
| RegionVisits.SpansExpandBack | experiments/017_g1_execution_derived_reference/score.py:284-295 | expanding the spans gives the indices back, and no span continues its predecessor, for any list |
| RegionVisits.SpansHaveGaps | experiments/017_g1_execution_derived_reference/score.py:289-293 | for rising indices there is a gap before every next span |
| RegionVisits.SpansAreCanonical | experiments/017_g1_execution_derived_reference/score.py:284-295 | the encoding is the only maximal span list that stands for the indices |
| RegionVisits.PhysicalRegionVisits | experiments/017_g1_execution_derived_reference/score.py:298-361 | the measurement succeeds exactly when region, flags and summary agree, with the error of the first that does not, and returns the visits |
| DescriptorIO.WriteDescriptorBytes | src/oracle_composition/experiments/artifact_io.py:633-643 | with any short writes, success means the file is exactly the bytes and they were synced, and it fails exactly when a call fails; nothing else changes |
| DescriptorIO.DescriptorSha256 | src/oracle_composition/experiments/artifact_io.py:618-630 | a digest is returned exactly when the file has the expected size and no call fails, and it is that of the whole file |
| DescriptorIO.AllocateHidden | src/oracle_composition/experiments/artifact_io.py:407-420 | the first free one of a hundred hidden names is created, or all were taken, or a call failed |
| DescriptorIO.Filenames | src/oracle_composition/experiments/artifact_io.py:751-752 | the names that are no file names |
| DescriptorIO.VisibleAgain | src/oracle_composition/experiments/artifact_io.py:470-489 | the name is looked up again through a directory opened anew, and the descriptor is closed |
| ArtifactStreams.BoundedWriter.Write | src/oracle_composition/experiments/artifact_io.py:60-73 | after any write, whole, short or failed, count and digest describe exactly the bytes in the file and stay within the limit |
| ArtifactStreams.BoundedWriter.Sha256 | src/oracle_composition/experiments/artifact_io.py:43-45 | the reported digest is that of the file |
| ArtifactStreams.VerifiedReader.ReadInto | src/oracle_composition/experiments/artifact_io.py:124-136 | what is handed out is what is digested, never more than the expected size, whatever the file returns; if nobody interferes it is the content up to the offset, and a failure is a failing call |
| BufferedStreams.ReaderRunKeeps | src/oracle_composition/experiments/artifact_io.py:1024-1033 | after any calls with any failures, the reader delivered digested bytes in order, delivered, dropped and held bytes add up to the digested ones, and delivered bytes are a prefix if none was dropped before the last of them |
| BufferedStreams.PrefixIffNoGap | src/oracle_composition/experiments/artifact_io.py:1024-1033 | for distinct bytes the delivered bytes are a prefix if and only if none was dropped before the last of them |
| BufferedStreams.CaughtFailureDrops | src/oracle_composition/experiments/artifact_io.py:1026-1033 | a failed read that had taken something, followed by one that succeeds: everything is digested, and the consumer gets only what follows the dropped bytes |
| ArtifactStreams.BufferedReader.Read | src/oracle_composition/experiments/artifact_io.py:1024-1033 | `read(n)`, past the buffer in whole blocks and then through it: a short read means the end was seen, and a failed one loses all it had in hand |
| ArtifactStreams.BufferedReader.ReadAll | src/oracle_composition/experiments/artifact_io.py:1024-1033 | `read()` returns all that is held and all that comes up to the end, or loses it |
| ArtifactStreams.SlicesAreContent | src/oracle_composition/experiments/artifact_io.py:1024-1033 | what an undisturbed body reads are consecutive slices of the content, from its start to where the body stopped |
| ArtifactStreams.AcceptedArguments | src/oracle_composition/experiments/artifact_io.py:947-961 | the digests and sizes that are accepted, character by character |
| ArtifactStreams.ConsumeAll | src/oracle_composition/experiments/artifact_io.py:1015-1037 | the body and the drain: the bytes are complete exactly in size, digest and end, and an undisturbed body without failing calls gets its slices |
| ArtifactStreams.VerifiedSession | src/oracle_composition/experiments/artifact_io.py:936-1105 | on a normal exit one string of the expected size and digest holds, in order, what the consumer read, whatever the file does and whichever errors the consumer catches; it starts with what the consumer read if the consumer went on after no failed read, and in general exactly under the condition of PrefixIffNoGap; the file looked right before the first and after the last read. If nobody changes the file and no call fails, the consumer gets its slices of the content if and only if the arguments are accepted, the content is the expected one and the reader is left open |
| ArtifactStreams.ReadVerifiedBytes | src/oracle_composition/experiments/artifact_io.py:1108-1128 | returned bytes have the expected size and digest; if nobody changes the file, its content is returned if and only if the arguments are accepted, the content is the expected one and no call or check fails |
| StreamPublication.PublishSealed | src/oracle_composition/experiments/artifact_io.py:218-323 | the sealed partial is renamed only onto a free name and only if its identity, links, size and digest hold; success is exactly that without a failing call, and means that the checks were made on both sides of the rename, the entry was synced and the directory opened anew twice |
| StreamPublication.StillSealed | src/oracle_composition/experiments/artifact_io.py:270-287 | the rename moves the only name of the file, so the checks made again still hold |
| BufferedStreams.WriteKeeps | src/oracle_composition/experiments/artifact_io.py:60-73 | whatever fails, a write accepts its value at the end of the stream or none of it, and keeps every accepted byte |
| BufferedStreams.StreamHoldsAccepted | src/oracle_composition/experiments/artifact_io.py:60-73 | after any calls with any failures the stream holds what was accepted, in order, and it is that exactly when there is no surplus, which its length shows |
| BufferedStreams.StreamDiffersIff | src/oracle_composition/experiments/artifact_io.py:63-72 | the stream differs from what was accepted if and only if some raw write, of the buffer or of a value too long for it, was within the limit and failed after its first byte |
| BufferedStreams.FlushRepeats | src/oracle_composition/experiments/artifact_io.py:66-72 | for every buffered value and every cut inside it, the run in which the part that got out is in the file twice |
| BufferedStreams.DirectWriteLeaves | src/oracle_composition/experiments/artifact_io.py:66-72 | for every value longer than the buffer and every cut inside it, the run in which the part of the refused value stays in the file |
| StreamPublication.StreamingArtifact.FlushBuffer | src/oracle_composition/experiments/artifact_io.py:210 | `writer.flush()` succeeds exactly when the writer is open, the buffer is empty or within the limit and no call fails, and is one more call of the writer's run |
| StreamPublication.StreamingArtifact.Write | src/oracle_composition/experiments/artifact_io.py:892 | `writer.write(value)` with a buffer size: the exact success condition, the value accepted at the end of the stream or none of it, and one more call of the writer's run |
| StreamPublication.StreamingArtifact.Seal | src/oracle_composition/experiments/artifact_io.py:210-213 | on success everything accepted is in the file and the writer is closed |
| StreamPublication.StreamingArtifact.VisibleOwned | src/oracle_composition/experiments/artifact_io.py:166-199 | a reported name is a name of the file, and without failing calls it is the first candidate that is |
| StreamPublication.StreamingArtifact.Finalize | src/oracle_composition/experiments/artifact_io.py:201-342 | Ok if and only if publishable and no call fails; the published bytes hold the accepted ones in order, are as many exactly without surplus, and are the accepted ones if and only if no raw write failed after its first byte; the name never shows a partial stream, nothing is replaced, and after a failure the retained name is right; on success bytes and entry were synced and checked on both sides of the rename |
| StreamPublication.StreamingArtifact.Abort | src/oracle_composition/experiments/artifact_io.py:355-364 | no entry changes and the retained name is right; if no call fails, everything a still open writer accepted within the limit is in the file and synced |
| ArtifactReservation.ReserveJsonArtifact | src/oracle_composition/experiments/artifact_io.py:746-818 | succeeds exactly when the name is free and no call fails; an existing entry is never touched, and a failure whose cleanup succeeds leaves the directory as it was; on success file and entry were synced, looked up and digested |
| ArtifactReservation.StagePending | src/oracle_composition/experiments/artifact_io.py:407-430 | a pending entry with the complete bytes, hidden from observers of the reserved name |
| ArtifactReservation.ConfirmSwap | src/oracle_composition/experiments/artifact_io.py:446-489 | accepts exactly the exchanged identities, one link, the size and the digest |
| ArtifactReservation.CommitPending | src/oracle_composition/experiments/artifact_io.py:431-491 | exchange, confirmation and unlink install the file, or leave a state the cleanup understands; observers see complete files only |
| ArtifactReservation.Rollback | src/oracle_composition/experiments/artifact_io.py:502-545 | from any state of the two entries, the entries end as the rollback function says unless a call fails |
| ArtifactReservation.RollbackRestores | src/oracle_composition/experiments/artifact_io.py:514-535 | from a staged or exchanged state the rollback function gives back the entries of the start |
| ArtifactReservation.RollbackLeaves | src/oracle_composition/experiments/artifact_io.py:501-545 | whichever calls of the cleanup fail, the entries are those of the start or the hidden entry remains, alone or exchanged |
| ArtifactReservation.ReservedJsonArtifact.Finalize | src/oracle_composition/experiments/artifact_io.py:382-548 | at every point the name shows the complete provisional or the complete final JSON; Ok means final; a failure with clean cleanup means provisional, and leaves the entries of the start or one hidden empty file more; other entries are kept and both descriptors closed; Ok exactly when no call fails, and then the file was synced and digested before the exchange, both names were looked up before and after it, and the new entry was synced and looked up in the directory opened anew |
| ArtifactReservation.ReserveAndFinalize | src/oracle_composition/experiments/artifact_io.py:382-548 | from the return of the reservation to the end of finalize an observer is shown the provisional or the final JSON only, and all descriptors are closed again |
| ArtifactReservation.ReservedJsonArtifact.Close | src/oracle_composition/experiments/artifact_io.py:550-556 | closes both descriptors once and leaves the receipt alone |
| PublisherRace.StepKeeps | src/oracle_composition/experiments/artifact_io.py:1131-1256 | every system call of every publisher, failed or not, keeps the invariant: entries and files of the start, who holds what under which name, and the pending names |
| PublisherRace.AtMostOneWinner | src/oracle_composition/experiments/artifact_io.py:1194-1250 | in every interleaving at most one publisher gets past its rename, so at most one returns |
| PublisherRace.ReturnedIsPublished | src/oracle_composition/experiments/artifact_io.py:1200-1250 | whenever a publisher has returned, the name was free at the start and holds exactly its bytes, linked once, with the reported size and digest |
| PublisherRace.TakenNameIsRefused | src/oracle_composition/experiments/artifact_io.py:1141-1150 | if the name is taken at the start, every schedule leaves entries and files as they were and no publisher gets past its look at the name |
| PublisherRace.LateComerIsRefused | src/oracle_composition/experiments/artifact_io.py:1141-1150 | nor does a publisher that had not yet looked when somebody else took the name |
| PublisherRace.FinishedStays | src/oracle_composition/experiments/artifact_io.py:1246-1256 | a return is final whatever is scheduled later, and so is an exception |
| PublisherRace.FailureRaises | src/oracle_composition/experiments/artifact_io.py:1131-1256 | a failing call ends its publisher for good and changes nothing on disk |
| PublisherRace.NoCallIsLeftOut | src/oracle_composition/experiments/artifact_io.py:1141-1250 | who has returned has made all 23 kinds of calls successfully, from the look at the free name over the sync of the bytes to the second look at the name |
| PublisherRace.NeverPartial | src/oracle_composition/experiments/artifact_io.py:1131-1256 | the name is always what it was or one publisher's complete bytes, and nothing that existed is replaced or altered |
| PublisherRace.EveryPublisherFinishes | src/oracle_composition/experiments/artifact_io.py:1158-1182 | a publisher of n bytes has returned or raised after at most 3 n + 124 calls of its own |
| PublisherRace.SomeoneWins | src/oracle_composition/experiments/artifact_io.py:1141-1250 | if no call fails and all have finished, exactly one publisher returns onto a free name |
| PublisherRace.LetFinish | src/oracle_composition/experiments/artifact_io.py:1141-1250 | from every run without failing calls, an unfinished publisher can be brought to its end without one while the others stay where they are |
| PublisherRace.RaceCanBeWon | src/oracle_composition/experiments/artifact_io.py:1141-1250 | every finite set of publishers aimed at a free name has a complete run without failing calls, and exactly one of them returns in it |
| ProbeSupervisor.ValidateProcessGroup | scripts/run_gmt_probe.py:480-494 | true exactly when the first round that does not try again finds the group in time, and false exactly when it is late or the child has exited |
| ProbeSupervisor.Judge | scripts/run_gmt_probe.py:709-736 | no breach exactly when every sample of the round is within its limit, otherwise the limit that is broken first in the order of the code; the extremes are updated as far as the code gets |
| ProbeSupervisor.Poll | scripts/run_gmt_probe.py:708-737 | the loop ends as its first round that is not clean says: exit, the limit broken there, or an exception; with the extremes of what was sampled |
| ProbeSupervisor.ObservedExtremes | scripts/run_gmt_probe.py:713-724 | the running extremes are the extremes of the samples, the peak that of the resident sizes read in time |
| ProbeSupervisor.RunChild | scripts/run_gmt_probe.py:690-745 | status, reason and extremes after the try block are those the script calls for, and a spawn is recorded exactly when everything before it held |
| ProbeSupervisor.Finish | scripts/run_gmt_probe.py:745-837 | cleanup before release, release at most once and last, and the exact status and reason |
| ProbeSupervisor.SuperviseProbe | scripts/run_gmt_probe.py:660-837 | over every script: when there is a report, its exact status, reason, extremes and receipt; success exactly when the listed conditions hold; which events are recorded; release at most once, with the reserved token, never for a spawned child without validated cleanup; a reserved slot is not asked back exactly in the listed cases |
| ProbeSupervisor.ReportIsUnique | scripts/run_gmt_probe.py:746-806 | the conditions of two different reports exclude each other, so that each is necessary and sufficient |
| ProbeSupervisor.PolledBreachesAreRenamed | scripts/run_gmt_probe.py:774-779 | a breach of disk or output that ended the polling is reported as the final one, or hidden by a failed cleanup or release |
| ProbeSupervisor.LimitBounds | scripts/run_gmt_probe.py:103-126 | the limits that are accepted, in numbers |
| ProbeSupervisor.FinalWallIsUnchecked | scripts/run_gmt_probe.py:760-773 | success does not depend on the final wall reading |
| ProbeSupervisor.LateSuccess | scripts/run_gmt_probe.py:715-720 | for all limits, a succeeding run with directory, closed files and receipt in place and a final reading of twice the wall limit |
| ProbeSupervisor.CloseErrorIsIgnored | scripts/run_gmt_probe.py:702-745 | success does not depend on closing the output files |
| ProbeSupervisor.OneReadKeepsTheSlot | scripts/run_gmt_probe.py:687-689 | every run that would succeed keeps its slot when one of the reads outside the try block raises |
| ProbeSupervisor.CleanRoundsAreBounded | scripts/run_gmt_probe.py:708-720 | with a clock that advances by delta per round, n clean rounds satisfy (n - 1) delta < wall limit |
| ProbeSupervisor.GroupRoundsAreBounded | scripts/run_gmt_probe.py:484-493 | the same for the two seconds of group validation |
| ProbeSupervisor.SupervisorEnds | scripts/run_gmt_probe.py:660-837 | with such a clock the supervisor comes to an end |

## Left out

- Type and `isinstance` checks, NaN and infinity: the model's types rule them out.
- Floating-point rounding, and quaternion, trigonometric and pose-error evaluation: a pose error is an abstract score per reference row.
- The shape, finiteness and quaternion checks of `BoundedPhaseMatcher.select` and the finiteness errors after it.
- Python's recursion limit in the cycle search; the model's recursion is bounded by the number of nodes.
- The texts, order and multiplicity of validator errors: only which violations are reported.
- Program construction from JSON, identities and hashes of programs and references.
- JSON encoding: finalize and reserve take the encoded bytes, or nothing when the value is not finite JSON.
- Permission bits, file types, symbolic links, device numbers and the creation of missing ancestors; `_open_parent_directory` is one call that may fail.
- ctypes details of rename and exchange: they are one atomic call each.
- Interference from outside the modelled publishers; the verified reader alone is proved against arbitrary file behaviour.
- Failures of close: a close always succeeds.
- `reserve_streaming_artifact`: the same create, check and discard shape as the JSON reservation; the streaming artifact starts with a fresh empty partial.
- The shared offset of a duplicated descriptor: the writer's and the owner's offsets are separate in the model, and the owner reads only after the writer was closed.
- `readinto`, `readline`, `read1`, `peek` and `seek` of the buffered reader as methods: their deliveries and failures are calls of the same run, except that what `peek` shows is not counted as delivered.
- A `BlockingIOError`, which regular files opened as they are here do not raise, and exceptions of signal handlers inside a buffered call.
- Reuse of inode and descriptor numbers: every new one is fresh.
- Mode, link count and identity in `verified_artifact_reader`: a check of one of them that fails counts as a failing call.
- What a crash leaves on disk: `evidence` says what was synced, not what survives without it.
- Process groups, signals, subprocesses, resource limits of the child, git and upstream identities: outcomes of calls in the supervisor's script.
- The text of reasons and the other fields of the terminal receipt.
- The remaining measurements of Studies 015, 017, 018 and 019, and the reward and telemetry of the tracking wrapper: flat computations around the modelled ones.
- Literature registration, migration manifest, effort summary, command lines and admission: nothing in them is hard to prove.
- PublisherRace.RaceCanBeWon: a token is any string, so that an unused one always exists; the program draws 32 hexadecimal digits.
- DescriptorIO.AllocateHidden: the tokens are a parameter, so that they are unlikely to collide is not modelled.
