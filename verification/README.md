# Verified model of an exam-collection system

The system schedules programming exams, opens and closes them on a clock, collects submissions from lab machines,
grades them with the help of a language model, and exports grades. This project models the parts of it that carry
state, branching or arithmetic and proves what they are there for:

- **ImportCycles**: the build check that searches the import graph for cycles, recursive depth-first search included.
  Its exit code is proved right in both directions for every graph, and its report is complete: cutting the import that
  closes each reported cycle leaves no cycle.
- **SessionTypes, ScheduleConflict, SessionRuns, SessionSweeps, SessionService**: the exam session lifecycle. A row is a
  value and a guarded update one atomic step. Cancelling and rescheduling may write long after they read, and opening a
  session is two steps, its reads and its unconditional write. `SessionRuns` interleaves the steps of sweeps and
  teachers in any order. `SessionService` holds the service methods as a class over the table, each proved equal to
  those steps.
- **Gates, Runner, RunnerVerdict, GateReport**: the evaluation runner with its worker pool, top-up attempts and gate
  verdict; `GateReport` states the gate lists and the verdict by what the attempts yield.
- **Xorshift, GenerateInput, Bootstrap, Compare, CompareVerdict**: the seeded generator, the shuffle, the paired
  bootstrap and the comparison of two runs; `CompareVerdict` states its counts and its direction by the records.
- **AuthoringBundle, AuthoringRows, FilenameTemplate, FilenameRendering**: test bundles flattened into rows with fresh
  keys of at most 64 characters, and per-student file names.
- **GenerateQuota, AgentJoinLock**: two in-memory limiters, each proved against the full history of calls.
- **JsonText, LanProtocol, TeacherHub, HubEffects**: the text of JSON messages, their newline framing, the hub that
  decodes it chunk by chunk, and what the messages do to it.
- **DiffRules, DiffOrder**: which rules moved a grade between two exports, and in which order they are named.
- **Text, Sorting, Bags, Options**: string order, joining, decimals, sorting, multisets of sequences and the option type,
  shared by the others.

Where the code changes things in place, the model has classes, arrays and loops, specified by functions; the theorems are
lemmas about those functions. Clocks, random codes and the outcomes of model calls are parameters.

Results that a reader might not expect:

- Opening a session re-reads its status inside the transaction, which the comment there says avoids the race with
  cancelling and finalizing. It does not: nothing locks the row, and the final update has no status in its `WHERE`
  clause. A session cancelled between read and write becomes active again (`CancelledSessionReturns`), and one finalized
  in between is finalized twice (`FinalizedTwice`). Without conditions hold: no double booking, distinct codes, and no
  absence without a signature (`StepKeepsSound`, `SlotsAreExclusive`). Each remaining guarantee has its exact condition.
  No continuation of a run finalizes a session twice if and only if no opening write lands on a session already
  finalized (`FinalizedOnceExactly`); none signs it twice if and only if none lands on a session already signed
  (`SignedOnceExactly`); no status ever goes back if and only if every opening write that takes effect lands on a row
  still waiting to open or already active (`OrderKeptExactly`). Adding that status guard to the update would make all of
  them unconditional.
- The de-duplication in the import-cycle report never drops anything unless a path contains `|`: two cycles recorded by
  one search never have the same set of nodes (`SameNodesSameBackEdge`).
- The comment on `assertNone` says it mirrors the database constraints. It does for rows that hold their slot; for a
  cancelled, collecting or completed row the constraints allow any schedule while the check may still refuse it, exactly
  when some holder collides (`StricterExactly`; `CheckRefusesFreeRow` is a rescheduled cancelled session).
- Topping up a clean twin's attempts in the fast tier could have left an injection case confirmed or odd on one attempt.
  It cannot, because more twin attempts only ever clear a violation (`ListedCasesHaveThreeAttempts`).
- The two counters of the join lock may forget failures when a caller records without checking
  (`FailuresCanBeLost`), exactly when a check clears an expired lock beside a running count (`CountersExactly`). The
  gateway checks first, and then this never happens even with interleaved attempts, provided each attempt ends within
  five minutes (`CountersAreExact`).
- The throttle on failed-join notifications is documented as one per thirty seconds and independent of the lock
  bookkeeping. A successful join deletes the whole entry, so exactly across a join it may be shorter (`ThrottleHolds`,
  `NextNotification`).
- The hub forgets only the machine a connection registered last, so a machine can stay listed under a closed socket
  (`StaleSocketRemains`); `ListedMachinesAreReachable` says exactly when.
- Two cases of different problems are taken for one when a slash in a name shifts the border between problem and case,
  and only then (`SameCaseExactly`).
- The comment in `renderFilename` says an unknown token is left as its own name; the code substitutes `UNKNOWN`, and so
  does the model.

## Model

| member | source | states |
|---|---|---|
| ImportCycles.Run | scripts/find-import-cycles.js:64-94 | The exit code is 1 if and only if the import graph has a closed walk, self-imports included; everything recorded is a genuine simple cycle, and every closed walk of the graph takes the closing import of a recorded cycle, so that without those imports no cycle is left; what is printed covers every recorded cycle once per key, and is all of them unless a path contains the joining character |
| ImportCycles.Search | scripts/find-import-cycles.js:66-83 | After visiting every unmarked file, nothing was recorded exactly when the graph is acyclic, taking the closing imports of all recorded cycles out of the graph leaves it acyclic, and no two recorded cycles have the same set of nodes |
| ImportCycles.CycleFinder.Visit | scripts/find-import-cycles.js:70-82 | Terminates on every graph; restores the stack, finishes its node, keeps earlier marks and cycles, and keeps the stack a simple import path of exactly the visiting nodes |
| ImportCycles.CycleFinder.FollowAll | scripts/find-import-cycles.js:73-79 | After the loop every import of the node is finished or closes a recorded cycle, and the back edges recorded for the node come from its own imports |
| ImportCycles.CycleFinder.RecordCycle | scripts/find-import-cycles.js:74-75 | An import of a visiting node always records one more simple cycle, closed by that very import, after those recorded before; the index is never missing |
| ImportCycles.StackTailIsCycle | scripts/find-import-cycles.js:75 | The stack from the repeated node on, closed by it, is a simple cycle of import edges |
| ImportCycles.RanksForbidClosedWalks | scripts/find-import-cycles.js:64-83 | When every finished node only imports nodes that finished before it, apart from some set of imports, every closed walk of any length takes one of those |
| ImportCycles.SameNodesSameBackEdge | scripts/find-import-cycles.js:75-89 | Two recorded cycles with the same set of nodes were closed by the same import, hence are the same recording |
| ImportCycles.ReportKeyDeterminesNodes | scripts/find-import-cycles.js:87 | Sorting and joining with a character no path contains loses nothing but order |
| ImportCycles.Deduplicate | scripts/find-import-cycles.js:85-91 | Printed keys are pairwise different and are exactly the keys of the recorded cycles |
| ImportCycles.IndexOf | scripts/find-import-cycles.js:75 | Finds the first position of an element that is present |
| SessionTypes.FreezeOpensReadySessions | apps/api/src/exam-session/session-roster.service.ts:272-391 | Undisturbed, a session becomes active if and only if it was waiting to open, was not read as missed, has a class and files declared and has somebody on the roster or enrolled; then every student has a seat for every file and no existing seat changed |
| SessionTypes.FreezeRefusesExactly | apps/api/src/exam-session/session-roster.service.ts:272-358 | Opening conflicts exactly for a session read as missed, or prepared and past waiting unless it is already open with a roster; it is a bad request exactly while class, files or students are lacking |
| SessionTypes.ConfirmExactly | apps/api/src/exam-session/collection-phase.service.ts:50-94 | A confirmation signs a collecting session, or for half an hour after its end one that the backup sweep has closed, and no other; beside status, name, moment and seats nothing changes |
| SessionTypes.DeadlineRace | apps/api/src/exam-session/collection-phase.service.ts:31-113 | From collecting, confirmation and backup sweep reach the same verdict in either order if and only if the confirmation falls within end plus grace; later the sweep's unsigned close stands |
| SessionTypes.AbsenteesAreTheMissing | apps/api/src/exam-session/session-roster.service.ts:740-750 | Signing marks exactly the seats without a submission absent; every other seat, and every seat when the update matches no row, stays as it was |
| ScheduleConflict.OverlapMeansSharedInstant | apps/api/src/database/migrations/1789810000000-MissedSessionReleasesSlot.ts:30-40 | Half-open ranges collide exactly when they share an instant |
| ScheduleConflict.ClashExactly | apps/api/src/database/migrations/1789810000000-MissedSessionReleasesSlot.ts:17-48 | Two rows exclude each other exactly when both are drafted, scheduled, not ready or under way and they share a room or class and an instant, or a teacher with less than half an hour between them |
| ScheduleConflict.TeacherGapMeansHalfAnHour | apps/api/src/database/migrations/1789350000000-TeacherScheduleGap.ts:53-60 | Widening each range at its end by half an hour refuses exactly the pairs of one teacher's sessions with less than half an hour between them, in either order |
| ScheduleConflict.FindClashFindsEarliest | apps/api/src/exam-session/schedule-conflict.service.ts:181-273 | Reports nothing exactly when no row collides, else a colliding row with the earliest start |
| ScheduleConflict.AdvisoryMirrorsConstraints | apps/api/src/exam-session/schedule-conflict.service.ts:109-165 | For a row holding its slot the check passes if and only if all three exclusion constraints would accept the row; a report names a real, earliest clash, and a room clash is never hidden by another kind |
| ScheduleConflict.StricterExactly | apps/api/src/exam-session/schedule-conflict.service.ts:240-252 | The constraints accept a row the check refuses if and only if the row holds no slot and some holder collides with it |
| ScheduleConflict.CheckRefusesFreeRow | apps/api/src/exam-session/schedule-conflict.service.ts:109-165 | A cancelled session without a roster whose reschedule the constraints accept and the check refuses |
| SessionRuns.BookingsKept | apps/api/src/database/migrations/1789810000000-MissedSessionReleasesSlot.ts:17-48 | No step of any actor creates a pair of clashing slot holders, a late opening write included: it turns a slot-free row into a holder only if the constraints accept the row |
| SessionRuns.OpensExactly | apps/api/src/exam-session/session-roster.service.ts:360-390 | An opening write takes effect exactly when nobody it adds is on the roster by then and the row, open from then on, clashes with no other; then the row is active whatever it was before |
| SessionRuns.StepKeepsSound | apps/api/src/exam-session/session-roster.service.ts:285-391 | Every step, an opening write at any later moment included, keeps: no double booking, distinct codes, nobody absent without a signature, every signature recorded, every session in or past collecting finalized before |
| SessionRuns.StepKeepsInv | apps/api/src/exam-session/session-roster.service.ts:325-384 | From a state in order a step keeps the invariant, which besides one signature and one finalize at most demands that nothing finalized is open, if and only if it is not an opening write landing on a session already finalized |
| SessionRuns.EveryRunIsSafe | apps/api/src/exam-session/collection-phase.service.ts:50-113 | Throughout a run the invariant holds (collecting is unsigned, nobody is absent without a signature, each session is signed at most once and finalized at most once, exactly once when it reached collecting, and never while it is waiting, active or missed) if and only if no opening write of the run lands on a session already finalized |
| SessionRuns.FinalizedOnceExactly | apps/api/src/exam-session/exam-session.service.ts:754-772 | Wherever a run is stopped and continued with one more finalize, no session is finalized twice, if and only if no opening write of the run lands on a session already finalized |
| SessionRuns.SignedOnceExactly | apps/api/src/exam-session/collection-phase.service.ts:50-94 | Wherever a run is stopped and continued with one more finalize and confirmation, no session is signed twice, if and only if no opening write of the run lands on a session already signed |
| SessionRuns.ReopenedIsFinalizedAgain | apps/api/src/exam-session/exam-session.service.ts:754-772 | After any such write one more finalize goes out a second time, and one more confirmation signs the session again over the earlier signature |
| SessionRuns.SlotsAreExclusive | apps/api/src/exam-session/schedule-conflict.service.ts:109-273 | In every reachable state, runs with late opening writes included, two sessions that are drafted, scheduled, not ready or under way and share a room or class do not overlap, and two of one teacher are at least half an hour apart |
| SessionRuns.StepFollows | apps/api/src/exam-session/session-roster.service.ts:285-391 | From a state in order a step moves statuses up their rank or leaves them and never rewrites a signature, its time, the code, the teacher or the class, if and only if it is not an opening write taking effect on a row that is neither waiting to open nor active |
| SessionRuns.LateOpeningTakesSlotBack | apps/api/src/exam-session/session-roster.service.ts:325-384 | Every opening write of that kind turns a released slot into a held one |
| SessionRuns.OrderKeptExactly | apps/api/src/exam-session/session-roster.service.ts:285-391 | From any moment of a run to any later one statuses only rise, signatures stay and the logs only grow, if and only if every opening write of the run that takes effect lands on a row waiting to open or already active |
| SessionRuns.CancelledSessionReturns | apps/api/src/exam-session/session-roster.service.ts:289-384 | A run in which a cancelled session becomes active |
| SessionRuns.FinalizedTwice | apps/api/src/exam-session/session-roster.service.ts:309-329 | A run in which one session is finalized twice |
| SessionRuns.NothingIsUndone | apps/api/src/exam-session/exam-session.service.ts:754-772 | Between any two moments of a run with timely opening writes: a signature and its time never change, a session never returns to active, a released slot is never taken back, an exam that is over stays over unless cancelled by a stale write |
| SessionSweeps.AutoOpenVerdict | apps/api/src/exam-session/exam-session.scheduler.ts:218-249 | Inside the lead window a tick opens a ready session before its end, makes an unready one not ready before its start and missed from then on, and makes every one missed after its end; each direction exact |
| SessionSweeps.ExamEndsExactly | apps/api/src/exam-session/exam-session.scheduler.ts:90-216 | Through ticks at any clocks a session under way stays untouched if and only if no finalize tick comes at or after its end; it is completed if and only if one does and a collection tick half an hour after the end or later follows it, and else is collecting |
| SessionSweeps.CollectionEndsExactly | apps/api/src/exam-session/exam-session.service.ts:846-857 | Through ticks at any clocks collecting goes on if and only if no collection tick comes half an hour after the end or later; closing happens at such a tick's moment, without a name, and touches no seat |
| SessionSweeps.WaitsExactly | apps/api/src/exam-session/exam-session.service.ts:817-826 | Through ticks at any clocks a waiting session stays exactly as it is as long as no auto-open tick comes ten minutes before its start or later |
| SessionSweeps.TickPastDeadline | apps/api/src/exam-session/exam-session.scheduler.ts:90-249 | Past the deadline each tick moves a row up one definite step of the rank or leaves it alone |
| SessionSweeps.StatusAfterTicks | apps/api/src/exam-session/exam-session.scheduler.ts:90-249 | The status in which any sequence of ticks leaves a row, from which kinds of ticks it contains in which order |
| SessionSweeps.SettlesExactly | apps/api/src/exam-session/exam-session.scheduler.ts:90-249 | A sequence of ticks past the deadline settles every non-draft session if and only if it has an auto-open tick and a finalize tick followed by a collection tick |
| SessionSweeps.TwoRoundsSettle | apps/api/src/exam-session/exam-session.service.ts:786-857 | Two rounds of the three sweeps, in any order inside each round, leave every non-draft session completed, missed or cancelled |
| SessionService.SessionStore.Create | apps/api/src/exam-session/exam-session.service.ts:147-293 | Refuses as a bad request exactly a missing class, less than fifteen minutes, or a start over half an hour ago; succeeds exactly for a valid request, no clash and a free code among five; inserts one row with the requested teacher, class, room and times and the first free code; a refusal changes nothing |
| SessionService.SessionStore.UpdateSchedule | apps/api/src/exam-session/exam-session.service.ts:412-471 | Succeeds exactly for the owner of a session that is not missed, has no roster and, when anything is to change, has a class, with end after start and no clash with any other row; each refusal has its own kind; writes exactly the given room, start and end, and the constraints never refuse what the check passed |
| SessionService.SessionStore.Cancel | apps/api/src/exam-session/exam-session.service.ts:478-492 | Succeeds exactly for the owner of a session that is not open yet, missed or already cancelled; frees the slot |
| SessionService.SessionStore.BeginFreeze | apps/api/src/exam-session/session-roster.service.ts:272-358 | The reads of the opening transaction: refuses, finds the session open, or notes what it will write, changing no row |
| SessionService.SessionStore.CommitFreeze | apps/api/src/exam-session/session-roster.service.ts:360-390 | The writes, at any later moment: the row becomes active whatever its status is by then, unless a roster row or an exclusion constraint stands against it, and then nothing changes |
| SessionService.SessionStore.FreezeRoster | apps/api/src/exam-session/session-roster.service.ts:272-391 | With nobody in between the two amount to the opening rule, and on a table without double booking no constraint stops it |
| SessionService.SessionStore.FinalizeExamSession | apps/api/src/exam-session/exam-session.service.ts:754-772 | True, and one event published, for exactly the caller that moved the row from active to collecting |
| SessionService.SessionStore.FinalizeForOwner | apps/api/src/exam-session/exam-session.service.ts:865-875 | A stranger gets the ownership error and changes nothing; the owner's session is not active afterwards, whoever finalized it, and one event naming the teacher goes out exactly if it was active |
| SessionService.SessionStore.TransitionUnopenedRow | apps/api/src/exam-session/exam-session.service.ts:832-844 | Moves exactly a row that is still waiting to open |
| SessionService.SessionStore.ConfirmEndOf | apps/api/src/exam-session/collection-phase.service.ts:50-94 | Signs with the teacher's name and the moment and concludes absences together for exactly the rows the update matches, leaving no seat open; otherwise answers with the unchanged row |
| SessionService.SessionStore.CompleteExpiredSession | apps/api/src/exam-session/collection-phase.service.ts:104-113 | Closes exactly a collecting row, without a signature |
| SessionService.SessionStore.AdvanceAutoOpen | apps/api/src/exam-session/exam-session.scheduler.ts:218-249 | Changes only its row, to the outcome of the auto-open rules, and reports whether the status changed |
| SessionService.SessionStore.FindDueIds | apps/api/src/exam-session/exam-session.service.ts:786-857 | Lists each due row once and no other |
| SessionService.SessionStore.RunSweep | apps/api/src/exam-session/exam-session.scheduler.ts:90-216 | One tick of any of the sweeps applies its row rule to the whole table, publishes one finalize event per due row and answers how many rows changed their status, for the finalize and the collection sweep all due ones |
| SessionService.InsertChecks | apps/api/src/exam-session/exam-session.service.ts:195-201 | After the advisory check an insert can only fail on its code |
| SessionService.SweepsAreRuns | apps/api/src/exam-session/exam-session.scheduler.ts:90-249 | What a sweep does to a due row at one moment is a run of one or two steps, so the theorems about runs cover it |
| Gates.TwinGrowthOnlyClears | apps/api/src/eval/gates.ts:12-37 | A violation judged against a larger set of twin attempts was the same violation judged against any non-empty part of it |
| Gates.SameContext | apps/api/src/eval/gates.ts:29-37 | Stability and best score of a twin depend only on which attempts it has |
| Gates.GatesOppose | apps/api/src/eval/gates.ts:12-27 | A measured attempt violates as a correct program exactly when it would not violate as a wrong one; an unmeasured attempt and groups 1 and 5 never violate |
| Gates.InjectionBeatsEveryTwin | apps/api/src/eval/gates.ts:23-37 | Against a stable twin an attempt violates the injection gate if and only if it scores above every attempt of the twin |
| Gates.StableTwinHasScore | apps/api/src/eval/gates.ts:30-37 | A stable twin always has a best score, below the maximum |
| Runner.Pool | apps/api/src/eval/runner-core.ts:86-92 | For every worker count and every order in which attempts end, each item is run exactly once |
| Runner.ReadBack | apps/api/src/eval/runner-core.ts:167-168 | What is read back for a case depends only on which records exist, not on the order they were pushed |
| RunnerVerdict.RunCases | apps/api/src/eval/runner-core.ts:143-213 | For any cases, repeated ids included, gate lists, unstable pairs, unmeasured cases and verdict equal those of a run with a single worker, whatever the concurrency and interleaving |
| RunnerVerdict.PushOrderIrrelevant | apps/api/src/eval/runner-core.ts:167-213 | Two record lists with the same records in different order give the same gate lists, unstable pairs, unmeasured cases, verdict and cases to top up, although cases under one key overwrite each other's violation marks |
| RunnerVerdict.OneGatePerKey | apps/api/src/eval/runner-core.ts:178-183 | All violating records under one key carry the same gate |
| RunnerVerdict.VerdictMeans | apps/api/src/eval/runner-core.ts:195-253 | A gate fails exactly when some case violates in two attempts or more; the run passes exactly when every case violates at most once and every case of groups 2 to 4 has an ok attempt |
| RunnerVerdict.ListedCasesHaveThreeAttempts | apps/api/src/eval/runner-core.ts:186-213 | In either tier a case that ends up confirmed or odd has its three attempts behind it, and those of every case that shares its id |
| RunnerVerdict.OwnAttempts | apps/api/src/eval/runner-core.ts:167-213 | When no id is repeated, exactly a case's own attempts are read back at the end, in order: three if it violates in the first pass or the tier is full, else one, and always three if it is listed |
| RunnerVerdict.OwnMark | apps/api/src/eval/runner-core.ts:178-183 | When no id is repeated, each record is marked by its own case |
| RunnerVerdict.LoneViolationIsOld | apps/api/src/eval/runner-core.ts:178-193 | A case that violates after the top-up already violated before it, repeated ids included |
| RunnerVerdict.TopUpComplete | apps/api/src/eval/runner-core.ts:187-193 | When no id is repeated, the records of a case at the end are each of its attempts once, two and three exactly when it violates in the first pass |
| GateReport.WronglyDeductedMeans | apps/api/src/eval/gates.ts:12-19 | A case of group 2 stands in the confirmed list of wrong deductions if and only if at least two of its three attempts are ok with a score below the maximum, in the fast tier the first among them |
| GateReport.FullMarksMeans | apps/api/src/eval/gates.ts:20-22 | A case of group 4 stands in the confirmed list of full marks if and only if at least two of its three attempts are ok with the maximum score or more, in the fast tier the first among them |
| GateReport.InjectionMeans | apps/api/src/eval/gates.ts:23-37 | A case of group 3 stands in the confirmed list of injections if and only if at least two of its three attempts score above every attempt of a twin that lost points in each of them, in the fast tier only if its first beat the twin's first |
| GateReport.ListsMean | apps/api/src/eval/runner-core.ts:195-213 | A case stands in the confirmed or odd list of its own group's gate by how many of its attempts were misjudged, two or more or one, and in no other gate list |
| GateReport.MadeIs | apps/api/src/eval/runner-core.ts:167-193 | The attempts of a case read back at the end are what its attempts one to three yield, or its first alone in the fast tier when that was not misjudged |
| GateReport.MeasuredMeans | apps/api/src/eval/runner-core.ts:202-206 | A case is reported unmeasured if and only if it is of groups 2 to 4 and none of its attempts was ok |
| GateReport.PairMeans | apps/api/src/eval/runner-core.ts:207 | A pair is reported unstable if and only if its twin has no attempts or one of them did not lose points |
| GateReport.VerdictFromYields | apps/api/src/eval/runner-core.ts:202-253 | The run fails exactly when some case was misjudged twice, passes exactly when none was and every case of groups 2 to 4 had an ok attempt, and is inconclusive otherwise |
| GateReport.ListsHoldCases | apps/api/src/eval/runner-core.ts:195-213 | No list names anything but a given case, and none twice |
| GateReport.ListsInOrder | apps/api/src/eval/runner-core.ts:195-213 | Every list of the summary names its cases in the order in which they were given |
| Xorshift.NeverZero | apps/api/src/eval/load-dataset.ts:36-47 | The generator's state is never zero, from any seed, after any number of calls |
| Xorshift.StatesNeverMerge | apps/api/src/eval/load-dataset.ts:40-44 | One call is a bijection on 32-bit states: different states stay different |
| Xorshift.FirstStates | apps/api/src/eval/load-dataset.ts:36-47 | From seed 1 the first three states are those of the published 32-bit xorshift generator |
| Xorshift.SeedIsState | apps/api/src/eval/load-dataset.ts:38 | A seed of 32 bits is itself the first state, except that 0 counts as 1 |
| Xorshift.SeedWraps | apps/api/src/eval/load-dataset.ts:38 | Seeds that differ by 2 to the 32 are the same, negative ones included |
| Xorshift.ZeroSeed | apps/api/src/eval/load-dataset.ts:38 | Every multiple of 2 to the 32 counts as seed 1 |
| GenerateInput.ShuffledRange | apps/api/src/eval/load-dataset.ts:52-57 | The shuffled array holds every value from lo to lo+n-1 exactly once and nothing else |
| GenerateInput.ShufflePermutes | apps/api/src/eval/load-dataset.ts:54-57 | The rounds permute any array |
| GenerateInput.PlacedStays | apps/api/src/eval/load-dataset.ts:54-57 | An element swapped into its final position is never moved again |
| GenerateInput.ShuffleIsRounds | apps/api/src/eval/load-dataset.ts:53-57 | The shuffle swaps positions n-1 down to 1, each with the one at or below it that a fresh generator state modulo its position plus one points at |
| GenerateInput.ShuffleInPlace | apps/api/src/eval/load-dataset.ts:53-57 | The in-place loop computes the specified shuffle of the old contents |
| GenerateInput.ShuffleRange | apps/api/src/eval/load-dataset.ts:49-59 | The generated array is the shuffle of the range, determined by n, lo and seed |
| Bootstrap.RanksMirror | apps/api/src/eval/compare.ts:80-84 | The two percentile ranks are valid indexes and mirror images for every number of iterations |
| Bootstrap.BootstrapMirrors | apps/api/src/eval/compare.ts:65-85 | Negating all differences negates the mean and turns [lo, hi] into [-hi, -lo], for any seed and number of iterations |
| Bootstrap.BootstrapWithin | apps/api/src/eval/compare.ts:65-85 | lo is at most hi, and both, like the mean, lie between any bounds of the differences |
| Bootstrap.RunBootstrap | apps/api/src/eval/compare.ts:65-85 | The nested resampling loops and the sort compute the specified interval; without iterations there is a mean and no bounds |
| Bootstrap.RanksAreQuantiles | apps/api/src/eval/compare.ts:82-83 | The ranks cut off at most a fortieth of the means at either end, and one rank further would cut off more |
| Bootstrap.MeansAt | apps/api/src/eval/compare.ts:72-78 | Resample i is the mean of n differences picked by the next n generator states modulo n, going on where resample i-1 stopped |
| Bootstrap.MeanIsAverage | apps/api/src/eval/compare.ts:81 | The reported mean times the number of differences is their sum |
| Compare.PerCaseValues | apps/api/src/eval/compare.ts:40-50 | The grouping loop yields each case's mean over its ok attempts with a value, in first-seen order |
| Compare.KeysAreCases | apps/api/src/eval/compare.ts:41-49 | Each case with a counted attempt is listed exactly once |
| Compare.SwapMirrors | apps/api/src/eval/compare.ts:92-112 | Swapping base and candidate negates the delta, mirrors the interval, swaps the one-sided counts and exchanges regression with improvement, for all records and metrics |
| Compare.JudgeMirrors | apps/api/src/eval/compare.ts:98-109 | An ordered interval and its mirror image get opposite verdicts |
| Compare.CompletionOrderIrrelevant | apps/api/src/eval/compare.ts:92-112 | The comparison is the same for any order in which the records of either run were completed |
| Compare.RunComparison | apps/api/src/eval/compare.ts:92-112 | The program's loops compute the specified comparison |
| CompareVerdict.HigherEverywhere | apps/api/src/eval/compare.ts:97-109 | When the candidate mean of every shared case lies above its base mean, the delta is positive and the verdict is regression for the score error and improvement for the two agreements |
| CompareVerdict.LowerEverywhere | apps/api/src/eval/compare.ts:97-109 | When it lies below everywhere, the delta is negative and the verdict is improvement for the score error and regression for the two agreements |
| CompareVerdict.EqualEverywhere | apps/api/src/eval/compare.ts:97-109 | When all means are equal, delta and interval are zero and there is no change |
| CompareVerdict.NoChangeMeansZeroInside | apps/api/src/eval/compare.ts:98-108 | A change is reported exactly when the interval leaves zero out |
| CompareVerdict.DiffsAre | apps/api/src/eval/compare.ts:97 | The differences are candidate mean minus base mean, one per shared case |
| CompareVerdict.SharedInOrder | apps/api/src/eval/compare.ts:95 | The compared cases are exactly those with a counted attempt in both runs, each once, in the order of their keys |
| CompareVerdict.IntervalIs | apps/api/src/eval/compare.ts:65-97 | Delta and bounds come from five thousand resamples of those differences from the one fixed seed |
| CompareVerdict.CountsMean | apps/api/src/eval/compare.ts:100-105 | The comparison is missing exactly when the runs share no case; its counts are the sizes of the intersection and the two differences of their case sets |
| CompareVerdict.SameCaseExactly | apps/api/src/eval/compare.ts:46 | Two attempts count as one case if and only if problem and case are the same or a slash in a name shifts the border between the two; without a slash in the problems' names only the former |
| CompareVerdict.MeanIsOfValues | apps/api/src/eval/compare.ts:47-49 | A case's value times the number of its counted attempts is the sum of their values, and lies between any bounds of these |
| CompareVerdict.OnlyGoodAttemptsMatter | apps/api/src/eval/compare.ts:42-45 | Leaving out all failed attempts and those without a value changes nothing about the comparison |
| CompareVerdict.ValueMeans | apps/api/src/eval/compare.ts:27-38 | The score error is the distance of two scores that both exist; an agreement is 1 exactly when expectation and outcome are both on the same side |
| AuthoringBundle.Flatten | apps/api/src/exam-authoring/authoring-bundle.ts:42-70 | One row per input case in order, content kept, each key chosen fresh against all earlier rows |
| AuthoringBundle.FreshKey | apps/api/src/exam-authoring/authoring-bundle.ts:49-58 | Ends within as many tries as there are used keys plus one, with the natural key if free and otherwise the first free numbered one |
| AuthoringBundle.BundleIsWellKeyed | apps/api/src/exam-authoring/authoring-bundle.ts:36-70 | Keys are pairwise distinct, match the 1 to 64 character pattern, and lead back to exactly the question of their case |
| AuthoringBundle.CaseKeyBelongs | apps/api/src/exam-authoring/authoring-bundle.ts:80-89 | Every natural key, for any name, is valid and starts with its question's prefix |
| AuthoringBundle.SuffixedInjective | apps/api/src/exam-authoring/authoring-bundle.ts:54-57 | Candidates with different numbers are different strings however the base is cut |
| AuthoringBundle.SuffixedBelongs | apps/api/src/exam-authoring/authoring-bundle.ts:51-57 | A numbered key stays valid and keeps its question's prefix |
| AuthoringBundle.TraceBack | apps/api/src/exam-authoring/authoring-bundle.ts:36-41 | A key belongs to one question only |
| AuthoringBundle.SlugShape | apps/api/src/exam-authoring/authoring-bundle.ts:95-106 | A slug has only lower-case letters, digits, underscores and dashes, and does not begin with a dash |
| AuthoringBundle.GroupFits | apps/api/src/exam-authoring/authoring-bundle.ts:114-120 | A group is 1 to 100 characters, has no outer white space, and is a fixed point |
| AuthoringRows.RowsCarryCases | apps/api/src/exam-authoring/authoring-bundle.ts:46-67 | There are as many rows as cases; case c of question q has its row behind all cases of earlier questions and the c before it, with its input, its expected output, q, and its group |
| AuthoringRows.RowKeysAre | apps/api/src/exam-authoring/authoring-bundle.ts:49-58 | That row has the key made of the question's number from 1, c and the name, unless an earlier row has it; then it has the first numbered key from 2 on that no earlier row has |
| AuthoringRows.KeyShowsName | apps/api/src/exam-authoring/authoring-bundle.ts:80-89 | A key is q, the question's number, a dash and the slug of the name, or a beginning of that if it is longer than 64 characters; without a slug it ends in c and the case's index |
| AuthoringRows.SuffixedIs | apps/api/src/exam-authoring/authoring-bundle.ts:54-57 | A numbered key is the key, cut only as far as 64 characters demand, a dash and the number |
| AuthoringRows.SlugIsWords | apps/api/src/exam-authoring/authoring-bundle.ts:95-106 | A slug is the longest runs of lower-case letters, digits and underscores of the name joined by single dashes, a barred d counting as d |
| AuthoringRows.GroupIs | apps/api/src/exam-authoring/authoring-bundle.ts:114-120 | White space around a group is dropped; a group of 1 to 100 characters is kept and any other becomes general |
| FilenameTemplate.NormalizeAlnum | apps/api/src/exam-session/filename-template.ts:95-105 | A normalised value is letters and digits, never empty; a value that already is stays as it is |
| FilenameTemplate.RenderingIsSafe | apps/api/src/exam-session/filename-template.ts:117-141 | Every declaration in the template grammar renders, for every context, to a safe file name, and the final fallback is never taken |
| FilenameRendering.TokenPlace | apps/api/src/exam-session/filename-template.ts:117-141 | In an accepted declaration a token's place holds that token's value, between what is rendered before it and what is rendered after it |
| FilenameRendering.TokensShowTheirFields | apps/api/src/exam-session/filename-template.ts:117-132 | MSSV shows the student id, TEN the student's name, PHONG the room, SOMAY the machine or UNKNOWN without one; a field of letters and digits shows unchanged |
| FilenameRendering.LiteralsShow | apps/api/src/exam-session/filename-template.ts:49-57 | What stands outside tokens is rendered as it is |
| FilenameRendering.PlainIsKept | apps/api/src/exam-session/filename-template.ts:117-141 | A declaration without braces is the name |
| FilenameRendering.AlwaysSafe | apps/api/src/exam-session/filename-template.ts:117-141 | Any declaration with a token, accepted or not, renders to a safe file name |
| FilenameRendering.UnknownToken | apps/api/src/exam-session/filename-template.ts:117-141 | A token that does not exist renders as UNKNOWN |
| FilenameRendering.NormalizeShows | apps/api/src/exam-session/filename-template.ts:95-105 | A value shows its runs of letters and digits, each capitalised except one at its very beginning, and UNKNOWN when it has none |
| FilenameRendering.LettersMean | apps/api/src/exam-session/filename-template.ts:95-105 | Capitalising moves a to z to the same letter of A to Z and nothing else; the two barred letters lose their bar |
| FilenameTemplate.SubstituteIsRender | apps/api/src/exam-session/filename-template.ts:49-57 | Scanning for tokens replaces exactly the declared tokens of a parsed declaration |
| FilenameTemplate.DifferentIdsDifferentNames | apps/api/src/exam-session/filename-template.ts:117-141 | When the student id stands in a separator-free segment with no other token, two different alphanumeric ids never give one name |
| FilenameTemplate.SharedSegmentCollides | apps/api/src/exam-session/filename-template.ts:117-141 | For every declaration whose tokens stand in one run with another token among them, however often the id occurs, two students with different ids get one name |
| GenerateQuota.GenerateQuota.AssertBurst | apps/api/src/exam-authoring/generate-quota.service.ts:90-120 | Prunes every teacher, then decides and records in one step |
| GenerateQuota.GenerateQuota.PruneAll | apps/api/src/exam-authoring/generate-quota.service.ts:97-104 | Keeps exactly the unexpired times, and no teacher without any |
| GenerateQuota.PruningRefinesHistory | apps/api/src/exam-authoring/generate-quota.service.ts:90-120 | Over any run with a non-decreasing clock every decision, wait included, is the one the full history of accepted calls would give |
| GenerateQuota.EveryWindowWithinLimit | apps/api/src/exam-authoring/generate-quota.service.ts:90-120 | No window of the configured length, wherever placed, holds more accepted calls of a teacher than the limit |
| GenerateQuota.RefusedExactlyWhenFull | apps/api/src/exam-authoring/generate-quota.service.ts:106-107 | A call is refused if and only if the window ending with it already holds the full limit |
| GenerateQuota.RetryAfterIsExact | apps/api/src/exam-authoring/generate-quota.service.ts:107-108 | The announced wait is positive, and whatever others do and however often the teacher retries too early, the next call is accepted if and only if the wait is over |
| GenerateQuota.NextIsLast | apps/api/src/exam-authoring/generate-quota.service.ts:90-120 | The decision the history gives for the next call is the one the pruned map makes |
| GenerateQuota.MapHoldsOnlyLiveTimes | apps/api/src/exam-authoring/generate-quota.service.ts:97-112 | After a call the map holds no teacher without a time, and no time that has left the window |
| AgentJoinLock.AgentJoinLockStore.CheckLock | apps/api/src/exam-session/agent-join-lock.store.ts:56-68 | Answers the remaining lock and clears only an expired one |
| AgentJoinLock.AgentJoinLockStore.RecordFailure | apps/api/src/exam-session/agent-join-lock.store.ts:76-106 | Counts a failure unless locked, and the fifth fires the next lock |
| AgentJoinLock.AgentJoinLockStore.Clear | apps/api/src/exam-session/agent-join-lock.store.ts:115-117 | Forgets everything about one student id and nothing about another |
| AgentJoinLock.AgentJoinLockStore.ShouldNotify | apps/api/src/exam-session/agent-join-lock.store.ts:123-134 | Grants and remembers a notification unless one went out in the last thirty seconds |
| AgentJoinLock.KeysAreIndependent | apps/api/src/exam-session/agent-join-lock.store.ts:46 | After any run of calls, what is held under a key is what that key's own calls alone would leave |
| AgentJoinLock.SameKeyExactly | apps/api/src/exam-session/agent-join-lock.store.ts:46 | Two student ids share a slot if and only if they have the same length and differ at no position but in the case of a letter |
| AgentJoinLock.Accounting | apps/api/src/exam-session/agent-join-lock.store.ts:56-106 | In every run five times the strikes plus the running count plus the forgotten failures is the number of counted failures since the last clear, and the running count stays below five |
| AgentJoinLock.LostExactly | apps/api/src/exam-session/agent-join-lock.store.ts:56-106 | Failures are forgotten in a run if and only if, since the last clear, a check met an expired lock beside a running count |
| AgentJoinLock.CountersExactly | apps/api/src/exam-session/agent-join-lock.store.ts:56-106 | Five times the strikes plus the running count equals the failures counted since the last clear if and only if no such check occurred |
| AgentJoinLock.FailuresCanBeLost | apps/api/src/exam-session/agent-join-lock.store.ts:62-65 | A run in which a counted failure is forgotten |
| AgentJoinLock.NothingIsLost | apps/api/src/exam-session/exam-session.gateway.ts:352-364 | When every recorded failure passed a check less than five minutes before, attempts interleaving freely, nothing is ever forgotten |
| AgentJoinLock.CountersAreExact | apps/api/src/exam-session/exam-session.gateway.ts:837-856 | Under that order five times the strikes plus the running count equals the failures counted since the last clear |
| AgentJoinLock.LockLengths | apps/api/src/exam-session/agent-join-lock.store.ts:97-100 | Successive locks last 5, 10, 20, 40 and then always 60 minutes |
| AgentJoinLock.LockStandsStill | apps/api/src/exam-session/agent-join-lock.store.ts:48-88 | Nothing called during a lock, a clear apart, changes its end, the strikes or the count |
| AgentJoinLock.LockLastsExactly | apps/api/src/exam-session/agent-join-lock.store.ts:56-106 | The lock after k earlier ones refuses every attempt with the exact remaining time for exactly min(5 times 2 to the k, 60) minutes, then passes with a clean count |
| AgentJoinLock.ThrottleHolds | apps/api/src/exam-session/agent-join-lock.store.ts:119-134 | Two notifications about one student less than thirty seconds apart have a successful join between them |
| AgentJoinLock.NextNotification | apps/api/src/exam-session/agent-join-lock.store.ts:115-134 | After a notification went out the next one goes out if and only if thirty seconds have passed, or a join has succeeded in between (and the clock reads at least thirty seconds) |
| AgentJoinLock.FirstNotification | apps/api/src/exam-session/agent-join-lock.store.ts:123-134 | A student nobody was notified about yet, whatever was called, is notified about exactly from clock reading thirty seconds on |
| AgentJoinLock.ClearForgetsTheNotification | apps/api/src/exam-session/agent-join-lock.store.ts:115-134 | After a join the next notification goes out at once, however recent the last one |
| JsonText.JsonIsNewlineFree | apps/agent/src/lab-mgmt/lan-protocol.ts:82-84 | The JSON text of any message has no raw newline, whatever strings it carries |
| JsonText.ValueIsUnique | apps/agent/src/lab-mgmt/lan-protocol.ts:70-84 | A value can be read off the front of a text, before a comma, a closing bracket or the end, in one way only |
| JsonText.StringifyIsInjective | apps/agent/src/lab-mgmt/lan-protocol.ts:70-84 | Different messages have different texts |
| JsonText.Constants | apps/agent/src/lab-mgmt/lan-protocol.ts:82-84 | null, true, false, the empty array and the empty object are written as such |
| JsonText.ArrayNotation | apps/agent/src/lab-mgmt/lan-protocol.ts:82-84 | Items are written between brackets with a comma between them |
| JsonText.ObjectNotation | apps/agent/src/lab-mgmt/lan-protocol.ts:82-84 | Members are written between braces, each a quoted name, a colon and a value, with a comma between them |
| JsonText.QuotedReadsBack | apps/agent/src/lab-mgmt/lan-protocol.ts:82-84 | Undoing the escapes of section 7 of RFC 8259 turns a quoted string back into the string |
| JsonText.HexIsValue | apps/agent/src/lab-mgmt/lan-protocol.ts:82-84 | Control characters are escaped with their value in lower-case hexadecimal digits |
| LanProtocol.SplitIsFaithful | apps/agent/src/lab-mgmt/teacher-hub.ts:387-389 | Lines and rest put together again are the stream, and neither contains a newline |
| LanProtocol.SplitIsUnique | apps/agent/src/lab-mgmt/teacher-hub.ts:387-389 | Any other cut of a stream into newline-free lines and rest is the same one |
| LanProtocol.SplitIsIncremental | apps/agent/src/lab-mgmt/teacher-hub.ts:385-389 | Cutting a stream anywhere and carrying the rest over gives the same lines and the same rest |
| LanProtocol.FramesComeBack | apps/agent/src/lab-mgmt/lan-protocol.ts:70-84 | Concatenated frames split into exactly the messages' texts, in order, with nothing left over |
| LanProtocol.EncodingIsInjective | apps/agent/src/lab-mgmt/lan-protocol.ts:82-84 | Different sequences of messages make different streams |
| TeacherHub.TeacherHub.OnData | apps/agent/src/lab-mgmt/teacher-hub.ts:384-416 | The buffer loop handles exactly the complete lines of buffer and chunk, in order, and keeps the rest |
| TeacherHub.TeacherHub.OnLine | apps/agent/src/lab-mgmt/teacher-hub.ts:390-414 | One line registers a machine, settles a waiting request and is reported, or is ignored |
| TeacherHub.TeacherHub.OnConnect | apps/agent/src/lab-mgmt/teacher-hub.ts:372-374 | A new connection starts with an empty buffer and no registration |
| TeacherHub.TeacherHub.SendRequest | apps/agent/src/lab-mgmt/teacher-hub.ts:310-330 | A request waits under its id and nothing else changes |
| TeacherHub.TeacherHub.OnClose | apps/agent/src/lab-mgmt/teacher-hub.ts:418-424 | Closing removes the machine the connection registered last, unless its id is empty, and nothing else |
| TeacherHub.TeacherHub.OnTimeout | apps/agent/src/lab-mgmt/teacher-hub.ts:316-319 | A timer settles its request only while it is still waiting |
| TeacherHub.ChunkingIsInvisible | apps/agent/src/lab-mgmt/teacher-hub.ts:384-416 | However the same characters are cut into chunks, the whole hub ends in the same state |
| TeacherHub.MessagesArriveUnchanged | apps/agent/src/lab-mgmt/teacher-hub.ts:384-416 | The texts of encoded messages are dispatched one by one, unchanged and in order, in whatever chunks they arrive |
| TeacherHub.MessagesAreHandled | apps/agent/src/lab-mgmt/teacher-hub.ts:384-416 | With a parser that reads these texts, the hub handles exactly what the messages say, in order, in whatever chunks they arrive |
| TeacherHub.EveryMeaningCanBeRead | apps/agent/src/lab-mgmt/lan-protocol.ts:70-84 | Whatever messages are taken to mean, some parser reads them so, no two sharing a text |
| TeacherHub.ConnectionsAreIndependent | apps/agent/src/lab-mgmt/teacher-hub.ts:372-391 | In any run with any other connections, the lines handled for a connection are exactly the newline-terminated lines of its own stream and its buffer is the rest |
| TeacherHub.SettledAtMostOnce | apps/agent/src/lab-mgmt/teacher-hub.ts:310-333 | In every run with fresh request ids each request is either still waiting or settled exactly once, and no other request is ever settled |
| HubEffects.FirstAnswerSettles | apps/agent/src/lab-mgmt/teacher-hub.ts:407-413 | A waiting request is settled with the first response that names it, whatever follows |
| HubEffects.SettledForAReason | apps/agent/src/lab-mgmt/teacher-hub.ts:310-414 | In every run a request is settled with an answer only if a line carrying that response was handled, and timed out only by its own timer |
| HubEffects.EveryAnswerIsReported | apps/agent/src/lab-mgmt/teacher-hub.ts:407-414 | Every response is reported once, in order, whether a request still waits for it or not |
| HubEffects.LastRegistrationIsListed | apps/agent/src/lab-mgmt/teacher-hub.ts:393-404 | A machine is listed with what its last registration said, under the connection that sent it |
| HubEffects.LastRegistrationStands | apps/agent/src/lab-mgmt/teacher-hub.ts:393-404 | A connection stands for the machine it registered last |
| HubEffects.OthersStay | apps/agent/src/lab-mgmt/teacher-hub.ts:393-404 | Messages that do not register a machine leave its listing and socket alone |
| HubEffects.ClosingForgets | apps/agent/src/lab-mgmt/teacher-hub.ts:418-424 | Closing takes the machine registered last off the list and leaves every other entry as it was |
| HubEffects.ShownListIsCurrent | apps/agent/src/lab-mgmt/teacher-hub.ts:393-424 | In every run the list shown last to the views is the current one |
| TeacherHub.ListedMachinesHaveSockets | apps/agent/src/lab-mgmt/teacher-hub.ts:393-424 | In every run the listed machines are exactly those with a socket on record |
| TeacherHub.StepKeepsSocketsOpen | apps/agent/src/lab-mgmt/teacher-hub.ts:384-424 | From a state in which every socket on record is open, a step keeps it so if and only if it does not close a connection on record for a machine other than the one it registered last |
| TeacherHub.ListedMachinesAreReachable | apps/agent/src/lab-mgmt/teacher-hub.ts:384-424 | Throughout a run every listed machine is reachable over an open connection if and only if no connection closes in that way |
| TeacherHub.StaleSocketRemains | apps/agent/src/lab-mgmt/teacher-hub.ts:393-424 | A connection that registers two machines and closes leaves the first listed under a closed socket |
| TeacherHub.IndexOfNewline | apps/agent/src/lab-mgmt/teacher-hub.ts:387 | The first newline, or -1 exactly when there is none |
| DiffRules.DiffRules | apps/api/src/grade-export/diff-rules.ts:23-36 | The loop over the union of both key lists computes the specified difference |
| DiffRules.DiffMeans | apps/api/src/grade-export/diff-rules.ts:23-36 | Exactly the rules whose effective deduction changed appear, once each, with the exact change |
| DiffRules.NamesComeFromTheErrors | apps/api/src/grade-export/diff-rules.ts:32-33 | Each change is described by an error of the later breakdown, or of the earlier one exactly when the rule is gone |
| DiffRules.DeltasConserveTotals | apps/api/src/grade-export/diff-rules.ts:19-36 | The changes add up to the change of the total effective deduction, the last error under a rule id counting |
| DiffRules.DistinctIsLatest | apps/api/src/grade-export/diff-rules.ts:24-25 | With distinct rule ids that total is the plain sum over the list |
| DiffRules.SwapNegates | apps/api/src/grade-export/diff-rules.ts:23-36 | Swapping the breakdowns names the same rules with negated changes |
| DiffRules.RoundsToNearest | apps/api/src/grade-export/rounding.ts:7-11 | The rounded value is the one multiple of the step within half a step, ties going up |
| DiffRules.UnknownExactlyWhenNoRuleMoved | apps/api/src/grade-export/diff-rules.ts:56-67 | Once rules are compared the answer is unknown if and only if no rule moved in the direction of the grade; otherwise it names only rules that did |
| DiffRules.MovedTotalNamesARule | apps/api/src/grade-export/diff-rules.ts:56-67 | When the total deduction rose while the grade went down, or fell while it went up, at least one rule is named, and every cause is a rule that moved that way |
| DiffRules.CausesAreExplained | apps/api/src/grade-export/diff-rules.ts:63-66 | Every cause is about a rule that moved with the grade: it has that rule's key, by how much it moved, and the name of the revision an error of it cites |
| DiffRules.MovedRulesHaveCauses | apps/api/src/grade-export/diff-rules.ts:63-66 | Every rule that moved with the grade has such a cause |
| DiffOrder.CausesInOrder | apps/api/src/grade-export/diff-rules.ts:27-66 | Causes stand in the order in which their rules first appear, the earlier breakdown read before the later |
| DiffOrder.ChangesInOrder | apps/api/src/grade-export/diff-rules.ts:27-34 | Changes stand in that order, too |
| DiffRules.LastErrorDecides | apps/api/src/grade-export/diff-rules.ts:19-31 | Of several errors of one rule the last decides what it deducts; it deducts its price if it is counted and priced and else nothing |
| DiffRules.AnswersInOrder | apps/api/src/grade-export/diff-rules.ts:56-62 | Rounding is the answer whenever the written value is the raw one rounded to the earlier step; else a grade set by hand or in review is, else unknown without both breakdowns; a negative grade or an unknown step throws |

## Left out

Exam sessions

- Session ids are row numbers; lookups of enrolment, rubric, semester and room are parameters or omitted; random exam codes are a parameter of `Create`.
- SessionService.SessionStore.Cancel: read and write happen at one moment in the class; `SessionRuns` also lets the write arrive later and hit a row in any status.
- SessionService.SessionStore.UpdateSchedule: read and write happen at one moment in the class; `SessionRuns` models the write as accepted or refused by the constraints alone.
- SessionService.SessionStore.BeginFreeze: the reads of the opening transaction happen at one moment, though each of its queries sees the table as it is then.
- Other services' edits of rosters, files and seats are one step that may change anything but conclude an absence.
- `reassignTeacher`, the in-process `running` flags of the sweeps, and a sweep that goes on after a database error on one row.
- `isAgentJoinOpen` and the remaining status predicates: single comparisons.

Evaluation

- Bootstrap.RunBootstrap: means are exact reals and 0.025 and 0.975 are 1/40 and 39/40, because rounding is not the point.
- RunnerVerdict.RunCases: an attempt's outcome depends only on case and attempt number and does not throw, and the `violation` field is recomputed where the program reads the copy it has just refreshed.
- GenerateInput.ShuffleRange: at least one element, as the manifest schema demands; the `nested` and `repeat` generators only repeat a string.
- The statistics of the run summary (percentiles, tokens, agreement rates, rule metrics), `modelConfound`, and dataset files.

Strings

- Unicode decomposition, removal of combining marks and lower-casing are taken as already applied to names; lengths count characters, not UTF-16 units.
- AuthoringBundle.BundleIsWellKeyed: fewer than 2^32 questions and cases, the length limit of JavaScript arrays.
- FilenameTemplate.DifferentIdsDifferentNames: one direction, since the converse is false: `{MSSV}{TEN}_{MSSV}{TEN}{TEN}` shares every segment and still tells ids apart by length. `SharedSegmentCollides` is the converse for a single run of tokens.

Limiters

- GenerateQuota.GenerateQuota.AssertBurst: the daily limit, which counts database rows, and the wording of the refusal.
- AgentJoinLock.AgentJoinLockStore.RecordFailure: the clock is read once per call; keys are lower-cased in ASCII, which covers every student id the gateway accepts.

LAN hub

- Decoding UTF-8, which the hub does chunk by chunk: the model is about characters. UDP advertising, the `hub_hello` frame, the bookkeeping of scan results, and `stop`.
- JSON parsing is a given map from lines to messages; a registration or response that lacks its body, on which the program throws, is not modelled.
- Whether a machine that registered again stays listed when its earlier connection closes: `CloseConnection` removes it, as the program does.

Grades

- The grading pipeline that produces breakdowns, and `summarizeChanges`, which counts.

Everything else the repository does: HTTP and WebSocket wiring, storage, authentication, user interfaces, the walk over
source files and the regular expression that finds imports.
