# OpenRill verification

A Dafny model of two parts of OpenRill and proofs about them:

- the **durable automation runtime**: the job and run tables with their leases, the schedules, and
  what the scheduler materializes (`packages/state`, `packages/automation`);
- the **verification tooling**: the workspace dependency check, the canonical JSON printer behind
  the fixture signatures, the bounded stage runner, the CRLF byte contract, the TAP failure
  extraction, and deterministic packaging (`scripts/`).

`dafny verify dfyconfig.toml` checks everything.

## How the model is organised

| file | what it models |
|---|---|
| `Common.dfy`, `Ordering.dfy` | result types; code-point order and the stable sort behind `sorted(xs, key=...)` |
| `Ledger.dfy` | the automation tables and the guarded updates on them, as steps |
| `LedgerSafety.dfy`, `LedgerLeases.dfy`, `LedgerAccounting.dfy`, `LastOccurrence.dfy` | what every sequence of steps keeps: table invariants, finality, at-most-once execution, lease fencing, the failure counter, the last-occurrence column |
| `History.dfy` | the tables as a function of the history: the last writer of every column, and what takes effect |
| `Repository.dfy` | `StateAutomationRepository`: the tables updated in place, one method per transaction, each proved to be a sequence of steps |
| `Schedule.dfy`, `CronLaws.dfy`, `CatchUp.dfy` | occurrences of a schedule, the next one, the laws of cron fields, the startup and regular plans |
| `Coverage.dfy` | plans and reconfigurations over whole histories: accepted plans are current, starts and wakes leave no gap but what a policy drops |
| `CycleCheck.dfy`, `PackageRoot.dfy`, `Workspace.dfy` | the dependency rules and the three-colour search |
| `CanonicalJson.dfy`, `CanonicalInverse.dfy`, `CanonicalContent.dfy`, `CanonicalText.dfy` | the canonical printer, a parser that inverts it, what its text depends on, and which of all texts it is |
| `StageRunner.dfy` | the polling loop against an environment that answers every call |
| `CrlfContract.dfy`, `TapFailure.dfy`, `Packaging.dfy` | byte contract, TAP extraction, archive and manifest order |

A ledger *step* is one guarded SQL statement of the repository (with the job update that belongs to
it). A transaction is a sequence of steps, so a statement about every sequence of steps covers every
interleaving of schedulers, host restarts, user edits and manual runs. A step whose guard fails, or
whose row would break a table constraint, leaves the ledger as it is.

## Where code and documents differ

- `docs/contracts/AUTOMATION.md:23` says a recurring job catches up only the latest missed run by default.
  The `RUN_ONCE` policy queues the oldest one (`packages/automation/src/scheduler.ts:190-197`), which is what
  `docs/plans/STEP012B_AUTOMATION_SCHEDULER_LIFECYCLE_LEASE_AND_RECOVERY.md:78` specifies, so the two documents
  differ as well. `CatchUp.StartupPlan` gives the exact condition under which the two agree and
  `CatchUp.RunOnceRunsOldest` a case where they do not.
- Leases are fenced by owner, not by attempt. `LedgerLeases.CommitIsOwnAttemptIff` says exactly when a
  commit lands in the attempt its executor claimed; `LedgerLeases.SharedOwnerDefeatsFencing` is a history
  in which it does not. One scheduler may claim the same run twice (claim, expiry, recovery, claim). What keeps
  it from committing across its own claims is that `wake` awaits each executor before it claims again
  (`packages/automation/src/scheduler.ts:344-356`); schedulers with different owner ids cannot.
- The `SKIP` policy writes `last_scheduled_for` unconditionally, every other path only moves it forward.
  `LastOccurrence.SkipRewindsIff` says exactly when skipping moves it back and when it leaves it behind a
  settled run; `LastOccurrence.SkipRewindsLast` is a history of the scheduler in which it does both.
- Skipping records the occurrence as last even when a manual run already holds it, so the column can name a run
  that is still pending (`LastOccurrence.SkipNamesPendingRun`); `LastOccurrence.SkipNamesClosedRunIff` says exactly when.
- A materialization is guarded by the cursor and not by the job revision. `Coverage.StalePlanIff` says exactly
  which reconfigurations let an older plan through. The definition service never writes one, because it
  computes a new cursor strictly after its clock (`Coverage.AcceptedPlanIsCurrent`); a raw repository call can, and
  so can a clock that goes back between planning and reconfiguring (`Coverage.ClockBackAdmitsStalePlan`).
- `extract_tap_failure` promises to preserve the first failure block (`scripts/run_step010a_acceptance.py:77`), but
  keeps only the last 20000 characters of its report. `TapFailure.ReportKeepsBlockIff` and
  `TapFailure.FailureSurvivesIff` say exactly when block and failure line survive;
  `TapFailure.LongBlockLosesFailure` is an output of which not one character of the failure line is left.
- The launcher check of `run_step001_acceptance.py` accepts bare CRs, which the scan of
  `package_step022cr3.py` rejects; `CrlfContract.LauncherMissesBareCr` says this is their only difference.
- The second service rule of the dependency check (`scripts/check_architecture.py:93-96`) can never fire:
  its edges have passed the first one (`Workspace.CheckWorkspace`).

## Model

| member | source | states |
|---|---|---|
| LedgerSafety.InvAlways | packages/state/migrations/008_automation_domain_persistence.sql:34-54 | after any sequence of steps: a lease exists exactly while a run is claimed or running and never expires before its claim, one run per job and occurrence, one run per request key, every run has its job |
| LedgerSafety.TerminalIsFinal | packages/state/src/automation-repository.ts:465-583 | once a run has succeeded, failed, been skipped or cancelled, no later history changes any column of its row |
| LedgerSafety.IdentityIsStable | packages/state/src/automation-repository.ts:292-647 | rows never disappear and keep their job, occurrence and request key; attempts never go down |
| LedgerSafety.BindingIsKept | packages/state/src/automation-repository.ts:372-387 | the agent run bound to a row is retained through renewals, crashes and requeues until the terminal commit |
| LedgerSafety.RevisionIsSpent | packages/state/src/automation-repository.ts:222-261 | a revision lower than the current one never matches again in any history |
| History.EditSpendsRevision | packages/state/src/automation-repository.ts:222-261 | of two edits based on the same revision at most one takes effect, whatever happens in between |
| History.JobsFromHistory | packages/state/src/automation-repository.ts:150-290 | over every history a job exists exactly when it was created, has the enabled flag and schedule of the last effective edit, the cursor of the last effective step that writes one, and a revision of one plus its effective edits |
| History.RunsFromHistory | packages/state/src/automation-repository.ts:292-647 | over every history each column of a run is what its last effective writer wrote: job, occurrence and key of the insertion, status, claimant and claim time of the last claim, expiry of the last claim, start or renewal, bound agent run, error code, and the number of claims |
| History.EffectiveIffAdmitted | packages/state/src/automation-repository.ts:292-647 | over every history a step takes effect if and only if the history admits it: edits by their count, cursor moves by the last cursor written, insertions by earlier insertions, and starts, renewals, bindings and commits by the last claimant no later than the last expiry written |
| LedgerSafety.StartsAreAccountedFor | packages/state/src/automation-repository.ts:465-647 | over every history the starts of a run equal its resumptions plus one if it is executing or executed, and its attempt column equals its effective claims |
| LedgerSafety.AtMostOneExecution | packages/state/src/automation-repository.ts:585-647 | without resumable agent runs an occurrence is started at most once, through any crashes, recoveries and competing schedulers |
| LedgerLeases.LeaseIsHonoured | packages/state/src/automation-repository.ts:486-526 | until a lease expires its owner keeps the same attempt or has committed it, whatever others do |
| LedgerLeases.LeaseBoundary | packages/state/src/automation-repository.ts:516-591 | the owner can act up to and including the expiry, recovery from the expiry on; at the expiry both can and the first one shuts the other out |
| LedgerLeases.HolderClaimed | packages/state/src/automation-repository.ts:465-484 | whoever holds a run made an effective claim since which it held the run without interruption, in one attempt |
| LedgerLeases.CommitterHeldTheLease | packages/state/src/automation-repository.ts:528-558 | between the committer's claim and its commit every effective step on the run was its own: no other owner, no claim, no recovery; and the commit is no later than the last expiry one of them set |
| LedgerLeases.ActorIsUnexpired | packages/state/src/automation-repository.ts:372-558 | whoever effectively starts, renews, binds or commits a run made its last claim and acts no later than the last expiry written |
| LedgerLeases.CommitIsOwnAttemptIff | packages/state/src/automation-repository.ts:544-557 | a commit belongs to the attempt its executor claimed if and only if the same owner did not claim the run again in between |
| LedgerLeases.SharedOwnerDefeatsFencing | packages/state/src/automation-repository.ts:465-557 | a history in which an expired executor commits the attempt of a successor with the same owner id |
| LedgerAccounting.FailuresAreConsecutive | packages/state/src/automation-repository.ts:559-643 | over every history the counter of a job is the number of its failed commits, by an executor or by recovery, since its last successful one |
| LedgerAccounting.CounterStep | packages/state/src/automation-repository.ts:559-581 | a success resets the counter, a failure adds one, and nothing else moves it |
| LastOccurrence.LastIsLatest | packages/state/src/automation-repository.ts:429-581 | over every history the column is the largest of the occurrence written by the latest skip and those committed as succeeded or failed since, each of them a real one, and it is null exactly when there is none |
| LastOccurrence.LastNamesClosedRun | packages/state/src/automation-repository.ts:559-647 | when the latest skip closed its occurrence, the column names the occurrence of a run that is over |
| LastOccurrence.SkipClosesSlotIff | packages/state/src/automation-repository.ts:292-323 | the skipped row closes its occurrence if and only if no open run, such as a manual one, already holds it |
| LastOccurrence.SkipNamesClosedRunIff | packages/automation/src/scheduler.ts:182-189 | the transaction of a start under SKIP leaves the column naming a run that is over if and only if no open run held the occurrence |
| LastOccurrence.SkipNamesPendingRun | packages/automation/src/scheduler.ts:182-189 | a history from the empty ledger after which a start under SKIP records as last an occurrence whose manual run is still pending |
| LastOccurrence.SkipRewindsIff | packages/automation/src/scheduler.ts:182-189 | over every history, skipping an overdue cursor moves the column back if and only if the latest skip or a commit since lies ahead of the cursor; it leaves the column behind a settled occurrence exactly when a run ahead of the cursor has succeeded or failed |
| LastOccurrence.SkipRewindsLast | packages/automation/src/scheduler.ts:182-189 | a history from the empty ledger after which the startup plan under SKIP moves the column from 100 s back to 3 s, behind a successful manual run |
| Repository.AutomationRepository.ClaimNext | packages/state/src/automation-repository.ts:455-484 | claims the pending run with the earliest occurrence, among equals the first id by code points, or nothing exactly when none is pending; writes owner, claim time, expiry and attempt |
| Repository.AutomationRepository.MarkRunning | packages/state/src/automation-repository.ts:486-505 | succeeds exactly for the owner of a claimed run up to its expiry, starts it and writes the new expiry |
| Repository.AutomationRepository.RenewLease | packages/state/src/automation-repository.ts:507-526 | succeeds exactly for the owner of a claimed or running run up to its expiry, and writes the new one |
| Repository.AutomationRepository.BindRunId | packages/state/src/automation-repository.ts:372-387 | binds once under the lease; binding the same agent run again is a replay that changes nothing |
| Repository.AutomationRepository.FinishRun | packages/state/src/automation-repository.ts:528-583 | commits exactly for the owner of a running run up to its expiry; writes outcome and error, keeps the bound agent run unless given one, ends the lease, and settles the job |
| Repository.AutomationRepository.RecoverExpired | packages/state/src/automation-repository.ts:585-647 | every expired lease and no other is taken back, so that no run is left with a lease that has run out; claims and resumable executions are queued again, other executions fail and count; the whole is a sequence of recovery steps |
| Repository.AutomationRepository.ReserveManual | packages/state/src/automation-repository.ts:333-370 | a known request key answers with its run or, for another job, a conflict; a new one takes the first free slot of the next thousand; each error has its exact condition |
| Repository.ReplayFindsSameRun | packages/state/src/automation-repository.ts:339-345 | in every later ledger the request key names the same run |
| Repository.AutomationRepository.MaterializeDueJob | packages/state/src/automation-repository.ts:412-453 | a stale cursor changes nothing; otherwise every planned occurrence has a run and the cursor moves, all or nothing; it raises if and only if the cursor is current and an instant is negative or a planned id is in use, also by an earlier planned row that is stored |
| Repository.AutomationRepository.CreateJob | packages/automation/src/service.ts:184-216 | a new job starts at revision 1 with no last occurrence and no failures; a taken id or a negative instant raises and changes nothing |
| Repository.AutomationRepository.UpdateConfig | packages/state/src/automation-repository.ts:207-263 | succeeds exactly on the expected revision, moves the revision on by one, writes flag, schedule and cursor, and leaves the runtime columns alone |
| Repository.AutomationRepository.UpdateRuntime | packages/state/src/automation-repository.ts:265-290 | overwrites cursor, last occurrence and failure count of an existing job, each with its own argument, and nothing of its configuration |
| Schedule.ComputeNext | packages/automation/src/schedule.ts:308-339 | returns the least occurrence after the given instant, or none for a past one-shot: the instant itself, a tick at most one interval on, or a full minute whose wall clock matches; it raises exactly on a bad argument or an empty search horizon |
| Schedule.NextInterval | packages/automation/src/schedule.ts:320-329 | the anchor arithmetic gives the first tick after the instant: the anchor, or one at most an interval on |
| Schedule.TicksAreSpaced | packages/automation/src/schedule.ts:320-329 | the first tick is the anchor and ticks are an interval apart |
| Schedule.NextCron | packages/automation/src/schedule.ts:330-338 | the minute search gives the first matching minute, and raises exactly when none of the next 2635200 minutes matches |
| CronLaws.EitherDay | packages/automation/src/schedule.ts:276-285 | with both day fields restricted, the occurrences are those by month day alone together with those by week day alone |
| CronLaws.NextByEitherDay | packages/automation/src/schedule.ts:276-285 | then the next occurrence is the earlier of the two next ones |
| CronLaws.NextOfUnion | packages/automation/src/schedule.ts:330-338 | the next occurrence of a union of schedules is the earlier one |
| CronLaws.WildcardValuesIgnored | packages/automation/src/schedule.ts:281-283 | the values of a wildcard day field do not matter |
| CronLaws.SingleMinute | packages/automation/src/schedule.ts:276-281 | with one value in minute, hour and month, the full minutes whose wall clock shows these values |
| CronLaws.SingleDay | packages/automation/src/schedule.ts:279-283 | restricting one day field to one value selects that day |
| CronLaws.SplitField | packages/automation/src/schedule.ts:276-285 | splitting the values of any field splits the occurrences |
| CronLaws.EmptyField | packages/automation/src/schedule.ts:276-285 | a field without values has no occurrence |
| CronLaws.FirstOrMonday | packages/automation/src/schedule.ts:276-285 | `0 0 1 * 1` occurs on the first of a month, on every Monday, and on no other day |
| CatchUp.StartupPlan | packages/automation/src/scheduler.ts:171-213 | under every policy the cursor becomes the first occurrence after now; bounded catch-up queues the oldest missed occurrences without gaps up to its limit; it raises if and only if an occurrence the policy asks for does not exist; RUN_ONCE queues the latest missed occurrence if and only if the one after it is not due |
| CatchUp.BoundedPlan | packages/automation/src/scheduler.ts:198-212 | the queued occurrences start at the cursor, have no gaps, are all due, and stop short of the limit only when nothing else is due; it raises if and only if a queued occurrence, or now when some are left behind, has no next one |
| CatchUp.RegularPlan | packages/automation/src/scheduler.ts:215-231 | one occurrence is queued and the cursor moves to the next one after it; it raises if and only if there is no next one |
| CatchUp.StartupPlanIsUnique | packages/automation/src/scheduler.ts:171-213 | the description of the startup plan leaves no choice: two plans that meet it are equal |
| CatchUp.StartupAccountsForAll | packages/automation/src/scheduler.ts:171-213 | every occurrence from the cursor to now is queued, skipped or dropped by the startup plan, and the bounded policy drops none below its limit |
| CatchUp.RunOnceRunsOldest | packages/automation/src/scheduler.ts:190-197 | a schedule and a clock where the startup plan under RUN_ONCE queues the oldest of four missed occurrences and not the latest |
| Coverage.WakesLeaveNoGap | packages/automation/src/scheduler.ts:369-407 | from the empty ledger, any interleaving of host starts under any catch-up policy and regular wakes, planned on snapshots, with reconfigurations and other ledger traffic leaves every occurrence of the schedule in force behind the cursor with one run, or dropped by a start: overdue then and after all the start queued or skipped, under the bounded policy only once its limit was reached |
| Coverage.AcceptedPlanIsCurrent | packages/automation/src/service.ts:83-97 | a plan for a due cursor that is still accepted, after any history since its snapshot, was made under the schedule, revision and enabled flag in force |
| Coverage.StalePlanIff | packages/state/src/automation-repository.ts:420-427 | after any reconfiguration a pending plan is accepted and leads the cursor off the new schedule if and only if the job stays enabled, the written cursor is the planned one and the new schedule has another next occurrence |
| Coverage.ClockBackAdmitsStalePlan | packages/state/src/automation-repository.ts:420-427 | a history of the definition service with a clock that goes back, after which an outdated plan is accepted |
| CycleCheck.CycleChecker.Visit | scripts/check_architecture.py:102-114 | terminates on every closed graph; without a cycle it restores stack and visiting and grows visited by exactly the reachable packages; a reported cycle is genuine and simple |
| CycleCheck.CycleChecker.Check | scripts/check_architecture.py:117-118 | fails if and only if the graph has a cycle; otherwise the finish order lists every package after all its dependencies |
| CycleCheck.CycleChecker.StackClosesCycle | scripts/check_architecture.py:103-105 | a name still being visited is on the stack, and the stack from there with the name appended is a simple cycle |
| CycleCheck.OrderedIsAcyclic | scripts/check_architecture.py:108-118 | a graph with a dependencies-first order of all its nodes has no cycle |
| Workspace.BuildGraph | scripts/check_architecture.py:63-80 | succeeds exactly when every dependency entry is allowed, and then the graph is the workspace edges and closed |
| Workspace.LastSectionWins | scripts/check_architecture.py:66-68 | a name is a dependency exactly when a section lists it, and the last one that does gives the specifier |
| Workspace.InGroupIff | scripts/check_architecture.py:79 | a package is in a group exactly when its directory lies below the directory of that name |
| Workspace.CheckWorkspace | scripts/check_architecture.py:63-118 | passes if and only if every dependency is allowed, the protocol is a leaf, no app imports an app and the graph is acyclic; a reported problem is really there |
| PackageRoot.RootMeansSubpath | scripts/check_architecture.py:34-38 | for a well-formed root r, the root of s is r exactly when s is r or starts with r and a slash |
| PackageRoot.RootIdempotent | scripts/check_architecture.py:34-38 | the root of a root is itself, on all strings |
| PackageRoot.UiRuntimeCatchesSubpaths | scripts/check_architecture.py:45-46 | the UI check catches every subpath import of a listed package and nothing else |
| PackageRoot.ForbiddenIsExtension | scripts/check_architecture.py:41-42 | a specifier is forbidden exactly when it is a listed token followed by anything |
| CanonicalInverse.RoundTrip | scripts/run_step010a_acceptance.py:65-73 | parsing the canonical text of any value consumes all of it and returns the value with its dicts in key order |
| CanonicalInverse.ValueParse | scripts/run_step010a_acceptance.py:65-73 | the same for a value followed by any text that does not start with a digit |
| CanonicalText.CanonicalIsShortest | scripts/run_step010a_acceptance.py:65-73 | no text that means the value in key order is shorter than the canonical one, and one of the same length differs at most in the case of hexadecimal digits |
| CanonicalText.EscapesAreLowerCase | scripts/run_step010a_acceptance.py:73 | the hexadecimal digits of an escape are in lower case |
| CanonicalText.CanonicalKeysAscend | scripts/run_step010a_acceptance.py:68-72 | read back, the keys of every dict at any depth ascend: a prefix first, else the smaller code point where they differ |
| CanonicalText.CanonicalIsCompact | scripts/run_step010a_acceptance.py:65-73 | the canonical text is the text of the value in key order |
| Ordering.BelowIffAscends | scripts/run_step010a_acceptance.py:71 | the order of sorting is by prefix or first differing code point |
| CanonicalContent.SameTextIffSameContent | scripts/run_step010a_acceptance.py:65-73 | two values print alike if and only if they hold the same content with dicts as mappings, at every depth |
| CanonicalContent.ContentGivesText | scripts/run_step010a_acceptance.py:213-216 | the signed text is a function of the content: insertion order never shows |
| CanonicalContent.NormalKeepsContent | scripts/run_step010a_acceptance.py:65-73 | rewriting dicts in key order keeps the content |
| StageRunner.StageRun.Run | scripts/acceptance_stage_runner.py:71-147 | the loop ends at the first exit or the first reading past the timeout; sleeps of a fifth of a second or what is left; prompt timeout detection; exactly the due heartbeats and none missed; a termination only on a timeout and a second one exactly when the process survives it; return code of the last poll, duration to the last reading, the report of the last termination; ok, state, return code and termination agree |
| StageRunner.StageRun.PollUntilDone | scripts/acceptance_stage_runner.py:101-117 | every iteration before the end saw neither exit nor timeout, each sleep asked for what was left, and the loop ends within the sleep bound |
| StageRunner.StageRun.Terminate | scripts/acceptance_stage_runner.py:22-68 | its actions are those of the escalation for what the process answered, and its text names the outcome of each signal and of the last wait |
| StageRunner.EscalationIsGentle | scripts/acceptance_stage_runner.py:47-63 | the kill signal comes only after the terminate request and a timed-out wait; a running process is asked to end, and killed exactly when that wait times out |
| StageRunner.TextIsNotNone | scripts/acceptance_stage_runner.py:22-68 | the text says already exited exactly when the process had, and is never the word for no termination |
| StageRunner.DetailsTellOutcome | scripts/acceptance_stage_runner.py:40-58 | sent and already exited are said exactly when that is what became of the signal |
| StageRunner.BeatsAreSpaced | scripts/acceptance_stage_runner.py:101-116 | the due heartbeats are an interval apart, the first an interval after the start, and all before the timeout |
| StageRunner.NoBeatIsMissed | scripts/acceptance_stage_runner.py:111-116 | at every reading of the loop the start or a printed heartbeat is less than an interval ago |
| StageRunner.StageRun.Conclude | scripts/acceptance_stage_runner.py:119-147 | a process that survived the first termination is terminated again; return code, duration and report are those of the last poll, reading and termination |
| StageRunner.HeartbeatsAreFew | scripts/acceptance_stage_runner.py:111-116 | heartbeats at least an interval apart and before the timeout number less than timeout over interval |
| CrlfContract.Scan | scripts/package_step022cr3.py:14-16 | passes exactly the clean strings; a reported index is the least offending position, with the right kind |
| CrlfContract.ValidCmd | scripts/package_step022cr3.py:10-22 | passes exactly when every clause holds, and then the launcher check passes too; a reported defect is really there |
| CrlfContract.CleanIffNothingRemains | scripts/package_step022cr3.py:13-16 | the scan passes exactly when deleting all CRLF pairs leaves neither CR nor LF |
| CrlfContract.LauncherMissesBareCr | scripts/run_step001_acceptance.py:227 | scan plus pair-present equals the launcher check plus no bare CR |
| CrlfContract.LauncherAcceptsBareCr | scripts/run_step001_acceptance.py:227 | a byte string the launcher check accepts and the scan rejects |
| CrlfContract.CleanIffLines | scripts/package_step022cr3.py:14-16 | clean strings are exactly the break-free lines joined by CRLF, each in one way only |
| CrlfContract.ContainsIff | scripts/package_step022cr3.py:17-21 | a token is contained exactly when the data is something, the token and something |
| CrlfContract.LowerForgetsCase | scripts/package_step022cr3.py:22 | lowering forgets the case of letters and nothing else |
| CrlfContract.LowerFindsAnyCase | scripts/package_step022cr3.py:22 | the lowered data contains the word exactly when the data contains it in some case |
| TapFailure.Extract | scripts/run_step010a_acceptance.py:76-96 | reports the first failure block with the last eight summary lines, cut to its last 20000 characters, or the last 12000 characters of the output when there is no failure |
| TapFailure.ExtractExtended | scripts/run_step011_acceptance.py:68-87 | the same with the error lines directly before the block |
| TapFailure.BlockIsTheFailure | scripts/run_step010a_acceptance.py:79-89 | the block is the first failure line with the subtest line directly before it, if any, up to the next subtest line |
| TapFailure.BlockIsUnique | scripts/run_step010a_acceptance.py:79-89 | this determines the block |
| TapFailure.SummaryIsLastEight | scripts/run_step010a_acceptance.py:91-95 | the summary is all summary lines from some line on: all there are, or the last eight |
| TapFailure.ReportLines | scripts/run_step010a_acceptance.py:96 | before the cut the report read line by line is the begin marker, the block, the end marker and the summary |
| TapFailure.ExtendedRefines | scripts/run_step011_acceptance.py:73-87 | the extended block is the original block behind the maximal run of error lines |
| TapFailure.PositionIndependent | scripts/run_step010a_acceptance.py:76-96 | lines before the failure that are no failure, no summary and do not end in a subtest line change nothing |
| TapFailure.ExtendedPositionIndependent | scripts/run_step011_acceptance.py:68-87 | the same for the extended version when they do not end in an error line either |
| TapFailure.ReportKeepsBlockIff | scripts/run_step010a_acceptance.py:76-96 | for any block and summary, the report ends with the whole block and what follows it if and only if that text fits the limit, with or without the begin marker |
| TapFailure.FailureSurvivesIff | scripts/run_step011_acceptance.py:68-87 | in both versions the failure line and all that follows survive the cut if and only if the text from the failure line on fits the limit; the error lines make no difference |
| TapFailure.LongBlockLosesFailure | scripts/run_step010a_acceptance.py:96 | a two-line output for which neither report holds the failure line |
| Packaging.Collect | scripts/package_step023a.py:6-13 | the packaged files of a listing in name order |
| Packaging.IncludedFiles | scripts/generate_package_manifest.py:14-25 | the manifest files of a listing in name order |
| Packaging.ArchiveHolds | scripts/package_step023a.py:5-12 | the archive holds exactly the files with no excluded directory among their parts whose name does not end in .pyc or .pyo |
| Packaging.CompiledIff | scripts/package_step023a.py:11 | a suffix is compiled exactly when the name ends in it and is longer |
| Packaging.ArchiveForgetsTraversal | scripts/package_step023a.py:6-13 | two listings of the same tree give the same archive and the same manifest |
| Packaging.PosixInjective | scripts/package_step023a.py:13 | joining slash-free non-empty parts with slashes loses nothing |
| Packaging.PosixSplits | scripts/package_step023a.py:13 | split at the slashes, an archive name gives back the parts of its path |
| Packaging.ArchiveNamesStrictlyIncrease | scripts/package_step023a.py:13-18 | archive names are strictly increasing |
| Packaging.DuplicateCheckPasses | scripts/package_step023a.py:19-21 | the duplicate-name failure never comes from the collected files |
| Packaging.ManifestMatchesArchive | scripts/generate_package_manifest.py:14-25 | on any listing the manifest is the archive without the files named like the manifest, as sequences |
| Ordering.SortForgetsOrder | scripts/package_step023a.py:13 | sorting by a key that tells elements apart forgets the order of the input |
| Ordering.FilterSort | scripts/generate_package_manifest.py:20-25 | filtering commutes with sorting |

## Left out

- The other durable protocols (task flows, goals, delegation, connectors, approvals, browser operations, retention): separate state machines beside the automation ledger; only the automation ledger is modelled.
- Deletion and pruning of automation rows by retention: the histories are those of the automation repository, so "never disappears" is relative to it.
- `agent_runs`: whether a linked agent run can be resumed is a parameter of recovery; the foreign key on it is not modelled.
- Timestamps for display (`created_at`, `updated_at`), names, conversation templates and failure-policy payloads: they take no part in any guard.
- `nextWakeAt`, timers, promises, abort signals and the closing flag of `AutomationScheduler`: each transaction it issues is a step; when it issues them is left to the history.
- Parsing of cron expressions, RFC 3339 timestamps and time zones: a cron schedule is its five parsed fields and a zone is an arbitrary function from instants to wall-clock fields.
- Floating-point rounding in the interval arithmetic: the division is exact for safe integers, so integers are used.
- Repository.AutomationRepository.ReserveManual: a run id in use is reported before the occurrence slots are looked at; SQLite may check the two constraints the other way round, which decides only which of two errors is raised when the id is in use and all thousand slots are taken.
- Repository.AutomationRepository.MaterializeDueJob: as for the manual reservation, a planned run id in use raises even where the occurrence already has a run; SQLite may skip such a row instead.
- A hand-written runtime update of a job (`updateJobRuntime`) can put its columns anywhere, so the results about its cursor, last occurrence and failure counter are about histories without one for that job.
- Repository.AutomationRepository.RecoverExpired: the order in which it visits expired rows is not modelled; the rows it leaves are stated without it.
- Floating-point leaves of `canonical`, whose text comes from the Python library, and lone surrogates, which are no Dafny characters.
- StageRunner.StageRun.Run: assumes that an exited process stays exited and that a sleep takes at least the requested time, as the Python library documents; without the second the polling loop need not end. The captured output text, process creation and console lines are not modelled.
- Python's line splitting and the regular expressions that normalise failure text; the TAP model starts from lines. Browser evidence extraction is find-and-slice with the same regular expressions.
- Source-import scanning in the dependency check: regular expressions over files, then the same membership tests.
- The other packaging scripts, which repeat the same collect, sort and write loop; zip writing and hashing.
