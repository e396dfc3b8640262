/**
 The durable automation ledger of packages/state: the job and run tables, and the guarded
 updates that make up its transactions. Every transaction is a sequence of these steps, so what
 holds after every sequence of steps holds for every interleaving of schedulers and restarts.
 */
module Ledger {
  import opened Common
  import opened Schedule

  datatype Status = Pending | Claimed | Running | Succeeded | Failed | Skipped | Cancelled

  predicate Live(s: Status) {
    s == Claimed || s == Running
  }

  predicate Terminal(s: Status) {
    s == Succeeded || s == Failed || s == Skipped || s == Cancelled
  }

  /** Terminal by execution: reached only through `Running`. */
  predicate Executed(s: Status) {
    s == Succeeded || s == Failed || s == Cancelled
  }

  datatype Lease = Lease(claimedAt: int, owner: string, expiresAt: int)

  /** A run row: one occurrence of a job. A request key marks a manual run. */
  datatype Run = Run(
    jobId: string,
    scheduledFor: int,
    requestKey: Option<string>,
    lease: Option<Lease>,
    runId: Option<string>,
    status: Status,
    attempt: nat,
    errorCode: Option<string>)

  /** A job row: the revision guards the configuration (enabled, schedule), the rest is runtime state. */
  datatype Job = Job(enabled: bool, schedule: Schedule, revision: nat, next: Option<int>, last: Option<int>, failures: nat)

  datatype State = State(jobs: map<string, Job>, runs: map<string, Run>)

  datatype Step =
    | CreateJob(job: string, enabled: bool, schedule: Schedule, next: Option<int>, at: int)
    | Configure(job: string, expectedRevision: nat, enabled: bool, schedule: Schedule, next: Option<int>, at: int)
    | SetRuntime(job: string, next: Option<int>, last: Option<int>, failures: nat)
    | AdvanceCursor(job: string, expectedNext: int, next: Option<int>, last: Option<int>)
    | InsertRun(id: string, job: string, scheduledFor: int, requestKey: Option<string>, skipped: bool)
    | Claim(id: string, owner: string, at: int, expiresAt: int)
    | MarkRunning(id: string, owner: string, at: int, expiresAt: int)
    | Renew(id: string, owner: string, at: int, expiresAt: int)
    | Bind(id: string, owner: string, at: int, agentRun: string)
    | Finish(id: string, owner: string, at: int, outcome: Status, runId: Option<string>, errorCode: Option<string>)
    | RecoverRun(id: string, at: int, resumable: bool)

  /** Column checks of the job table: no negative instants. */
  predicate Instant(t: Option<int>) {
    t.Some? ==> t.value >= 0
  }

  /** `lease_owner = ? AND lease_expires_at >= ?`. */
  predicate HeldBy(run: Run, owner: string, at: int) {
    run.lease.Some? && run.lease.value.owner == owner && run.lease.value.expiresAt >= at
  }

  /** `lease_expires_at <= ?`. */
  predicate Expired(run: Run, at: int) {
    run.lease.Some? && run.lease.value.expiresAt <= at
  }

  predicate SlotTaken(s: State, job: string, scheduledFor: int) {
    exists id :: id in s.runs && s.runs[id].jobId == job && s.runs[id].scheduledFor == scheduledFor
  }

  predicate KeyTaken(s: State, key: string) {
    exists id :: id in s.runs && s.runs[id].requestKey == Some(key)
  }

  /** A row violates a constraint other than the occurrence slot, so inserting it raises. */
  predicate InsertRaises(s: State, id: string, job: string, scheduledFor: int, key: Option<string>) {
    job !in s.jobs || id in s.runs || scheduledFor < 0 || (key.Some? && KeyTaken(s, key.value))
  }

  function FreshRun(job: string, scheduledFor: int, key: Option<string>, skipped: bool): Run {
    Run(job, scheduledFor, key, None, None, if skipped then Skipped else Pending, 0,
        if skipped then Some("AUTOMATION_CATCH_UP_SKIPPED") else None)
  }

  /** `CASE WHEN last IS NULL OR last < ? THEN ? ELSE last END`. */
  function Later(last: Option<int>, t: int): Option<int> {
    if last.None? || last.value < t then Some(t) else last
  }

  /** The job row after a terminal commit of one of its runs; cancellation leaves it alone. */
  function Settle(job: Job, outcome: Status, scheduledFor: int): Job {
    if outcome == Succeeded then job.(last := Later(job.last, scheduledFor), failures := 0)
    else if outcome == Failed then job.(last := Later(job.last, scheduledFor), failures := job.failures + 1)
    else job
  }

  function Requeued(run: Run): Run {
    run.(status := Pending, lease := None, errorCode := None)
  }

  /** The guard under which a step changes the ledger; otherwise it has no effect. */
  predicate Enabled(s: State, step: Step) {
    match step
    case CreateJob(job, _, _, next, _) => job !in s.jobs && Instant(next)
    case Configure(job, revision, _, _, next, _) => job in s.jobs && s.jobs[job].revision == revision && Instant(next)
    case SetRuntime(job, next, last, _) => job in s.jobs && Instant(next) && Instant(last)
    case AdvanceCursor(job, expected, next, last) =>
      job in s.jobs && s.jobs[job].enabled && s.jobs[job].next == Some(expected) && Instant(next) && Instant(last)
    case InsertRun(id, job, t, key, _) => !InsertRaises(s, id, job, t, key) && !SlotTaken(s, job, t)
    case Claim(id, _, at, expires) => id in s.runs && s.runs[id].status == Pending && expires >= at
    case MarkRunning(id, owner, at, expires) =>
      id in s.runs && s.runs[id].status == Claimed && HeldBy(s.runs[id], owner, at)
      && expires >= s.runs[id].lease.value.claimedAt
    case Renew(id, owner, at, expires) =>
      id in s.runs && Live(s.runs[id].status) && HeldBy(s.runs[id], owner, at)
      && expires >= s.runs[id].lease.value.claimedAt
    case Bind(id, owner, at, _) =>
      id in s.runs && s.runs[id].status == Running && HeldBy(s.runs[id], owner, at) && s.runs[id].runId.None?
    case Finish(id, owner, at, outcome, _, _) =>
      id in s.runs && s.runs[id].status == Running && HeldBy(s.runs[id], owner, at) && Executed(outcome)
    case RecoverRun(id, at, _) => id in s.runs && Live(s.runs[id].status) && Expired(s.runs[id], at)
  }

  /** The run row after an effective step that addresses it. */
  function Updated(run: Run, step: Step): Run
    requires run.lease.Some? || step.Claim?
  {
    match step
    case Claim(_, owner, at, expires) =>
      run.(status := Claimed, lease := Some(Lease(at, owner, expires)), attempt := run.attempt + 1, errorCode := None)
    case MarkRunning(_, _, _, expires) =>
      run.(status := Running, lease := Some(run.lease.value.(expiresAt := expires)))
    case Renew(_, _, _, expires) => run.(lease := Some(run.lease.value.(expiresAt := expires)))
    case Bind(_, _, _, agentRun) => run.(runId := Some(agentRun))
    case Finish(_, _, _, outcome, runId, error) =>
      run.(status := outcome, lease := None, runId := if runId.Some? then runId else run.runId, errorCode := error)
    case RecoverRun(_, _, resumable) =>
      if run.status == Claimed || (run.runId.Some? && resumable) then Requeued(run)
      else run.(status := Failed, lease := None, errorCode := Some("AUTOMATION_INTERRUPTED_BY_RESTART"))
    case _ => run
  }

  /** Steps that address one run row. */
  predicate OnRun(step: Step) {
    step.Claim? || step.MarkRunning? || step.Renew? || step.Bind? || step.Finish? || step.RecoverRun?
  }

  /** A terminal commit also settles the job of the run. */
  function Settled(jobs: map<string, Job>, before: Run, after: Run): map<string, Job> {
    if before.status != after.status && Terminal(after.status) && before.jobId in jobs
    then jobs[before.jobId := Settle(jobs[before.jobId], after.status, before.scheduledFor)]
    else jobs
  }

  function Apply(s: State, step: Step): State {
    if !Enabled(s, step) then s
    else match step
      case CreateJob(job, enabled, schedule, next, _) =>
        s.(jobs := s.jobs[job := Job(enabled, schedule, 1, next, None, 0)])
      case Configure(job, _, enabled, schedule, next, _) =>
        var row := s.jobs[job];
        s.(jobs := s.jobs[job := row.(enabled := enabled, schedule := schedule, next := next, revision := row.revision + 1)])
      case SetRuntime(job, next, last, failures) =>
        s.(jobs := s.jobs[job := s.jobs[job].(next := next, last := last, failures := failures)])
      case AdvanceCursor(job, _, next, last) =>
        var row := s.jobs[job];
        s.(jobs := s.jobs[job := row.(next := next, last := if last.Some? then last else row.last)])
      case InsertRun(id, job, t, key, skipped) => s.(runs := s.runs[id := FreshRun(job, t, key, skipped)])
      case _ =>
        var after := Updated(s.runs[step.id], step);
        State(Settled(s.jobs, s.runs[step.id], after), s.runs[step.id := after])
  }

  function Execute(s: State, steps: seq<Step>): State {
    if steps == [] then s
    else Apply(Execute(s, steps[..|steps| - 1]), steps[|steps| - 1])
  }

  const EMPTY := State(map[], map[])

  lemma ExecuteNone(s: State)
    ensures Execute(s, []) == s
  {
  }

  lemma ExecuteSnoc(s: State, steps: seq<Step>, step: Step)
    ensures Execute(s, steps + [step]) == Apply(Execute(s, steps), step)
  {
    assert (steps + [step])[..|steps + [step]| - 1] == steps;
  }

  lemma {:induction false} ExecuteConcat(s: State, a: seq<Step>, b: seq<Step>)
    ensures Execute(s, a + b) == Execute(Execute(s, a), b)
  {
    if b == [] {
      assert a + b == a;
    } else {
      var front, last := b[..|b| - 1], b[|b| - 1];
      ExecuteConcat(s, a, front);
      assert a + b == a + front + [last];
      ExecuteSnoc(s, a + front, last);
    }
  }
}
