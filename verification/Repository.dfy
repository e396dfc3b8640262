/**
 `StateAutomationRepository` of packages/state: the automation tables updated in place. Each
 method is one transaction, rolled back when it raises, and amounts to a sequence of ledger steps.
 */
module Repository {
  import opened Common
  import opened Schedule
  import opened Ordering
  import opened Ledger
  import opened LedgerSafety

  datatype Fault = NotFound | Conflict | Constraint | CollisionLimit

  /** A run row a plan asks for. */
  datatype Planned = Planned(id: string, scheduledFor: int, skipped: bool)

  const COLLISION_LIMIT := 1000

  /** `ORDER BY scheduled_for, automation_run_id`. */
  predicate Precedes(a: Run, idA: string, b: Run, idB: string) {
    a.scheduledFor < b.scheduledFor || (a.scheduledFor == b.scheduledFor && Below(idA, idB))
  }

  lemma PrecedesTransitive(a: Run, idA: string, b: Run, idB: string, c: Run, idC: string)
    requires Precedes(a, idA, b, idB) && Precedes(b, idB, c, idC)
    ensures Precedes(a, idA, c, idC)
  {
    if a.scheduledFor == c.scheduledFor {
      BelowTransitive(idA, idB, idC);
    }
  }

  /** The request key of a run keeps naming that run, so a replayed request always finds it. */
  lemma ReplayFindsSameRun(s: State, steps: seq<Step>, id: string, other: string)
    requires Inv(s) && id in s.runs && s.runs[id].requestKey.Some?
    requires other in Execute(s, steps).runs && Execute(s, steps).runs[other].requestKey == s.runs[id].requestKey
    ensures other == id
  {
    IdentityIsStable(s, steps, id);
    InvAlways(s, steps);
    assert SameKey(Execute(s, steps).runs[id], Execute(s, steps).runs[other]);
  }

  /** The owner has the lease of the run, and the lease has not run out before `at`. */
  ghost predicate LeasedAt(run: Run, owner: string, at: int) {
    run.lease.Some? && run.lease.value.owner == owner && at <= run.lease.value.expiresAt
  }

  function InsertStep(job: string, row: Planned): Step {
    InsertRun(row.id, job, row.scheduledFor, None, row.skipped)
  }

  /** Inserting the planned rows in turn. */
  function Inserts(job: string, rows: seq<Planned>): (steps: seq<Step>)
    ensures |steps| == |rows|
  {
    seq(|rows|, i requires 0 <= i < |rows| => InsertStep(job, rows[i]))
  }

  lemma InsertsNone(job: string, rows: seq<Planned>)
    ensures Inserts(job, rows[..0]) == []
  {
  }

  lemma InsertsSnoc(job: string, rows: seq<Planned>, i: nat)
    requires i < |rows|
    ensures Inserts(job, rows[..i + 1])
         == Inserts(job, rows[..i]) + [InsertStep(job, rows[i])]
  {
  }

  /** What an insert does to the tables. */
  lemma InsertOutcome(s: State, id: string, job: string, t: int, key: Option<string>, skipped: bool)
    ensures var insert := InsertRun(id, job, t, key, skipped);
            && (Enabled(s, insert) <==> !InsertRaises(s, id, job, t, key) && !SlotTaken(s, job, t))
            && Apply(s, insert) == if Enabled(s, insert) then s.(runs := s.runs[id := FreshRun(job, t, key, skipped)]) else s
  {
  }

  lemma KeyNamesOneRun(s: State, a: string, b: string)
    requires Inv(s) && a in s.runs && b in s.runs
    requires s.runs[a].requestKey.Some? && s.runs[a].requestKey == s.runs[b].requestKey
    ensures a == b
  {
    assert SameKey(s.runs[a], s.runs[b]);
  }

  /** The planned row is stored, as the first one for an occurrence without a run. */
  predicate Stored(s: State, job: string, rows: seq<Planned>, k: nat)
    requires k < |rows|
  {
    && !SlotTaken(s, job, rows[k].scheduledFor)
    && forall j :: 0 <= j < k ==> rows[j].scheduledFor != rows[k].scheduledFor
  }

  /** A planned row that breaks a constraint: a negative instant, or an id in use, also by an earlier row that is stored. */
  predicate BadRow(s: State, job: string, rows: seq<Planned>, i: nat)
    requires i < |rows|
  {
    || rows[i].scheduledFor < 0 || rows[i].id in s.runs
    || exists k :: 0 <= k < i && rows[k].id == rows[i].id && Stored(s, job, rows, k)
  }

  /** The occurrences with a run and the ids in use after the first `i` rows. */
  ghost predicate AfterRows(s: State, t: State, job: string, rows: seq<Planned>, i: nat)
    requires i <= |rows|
  {
    && t.jobs == s.jobs
    && (forall u :: SlotTaken(t, job, u) <==> SlotTaken(s, job, u) || exists k :: 0 <= k < i && rows[k].scheduledFor == u)
    && (forall id :: id in t.runs <==> id in s.runs || exists k :: 0 <= k < i && rows[k].id == id && Stored(s, job, rows, k))
  }

  /** The tables after a planned row that breaks no constraint. */
  ghost function Inserted(t: State, job: string, row: Planned): State {
    if SlotTaken(t, job, row.scheduledFor) then t
    else t.(runs := t.runs[row.id := FreshRun(job, row.scheduledFor, None, row.skipped)])
  }

  /** The next row raises exactly when it is a bad one, and otherwise it is accounted for. */
  lemma AfterRowsStep(s: State, t: State, job: string, rows: seq<Planned>, i: nat)
    requires i < |rows| && job in s.jobs && AfterRows(s, t, job, rows, i)
    ensures InsertRaises(t, rows[i].id, job, rows[i].scheduledFor, None) <==> BadRow(s, job, rows, i)
    ensures !BadRow(s, job, rows, i) ==> AfterRows(s, Inserted(t, job, rows[i]), job, rows, i + 1)
  {
    assert Stored(s, job, rows, i) <==> !SlotTaken(t, job, rows[i].scheduledFor);
    if !BadRow(s, job, rows, i) {
      NewSlots(t, job, rows[i]);
    }
  }

  lemma NewSlots(t: State, job: string, row: Planned)
    requires row.id !in t.runs
    ensures forall u :: SlotTaken(Inserted(t, job, row), job, u) <==> SlotTaken(t, job, u) || u == row.scheduledFor
  {
    var after := Inserted(t, job, row);
    if !SlotTaken(t, job, row.scheduledFor) {
      assert after.runs[row.id].jobId == job;
      forall u
        ensures SlotTaken(after, job, u) <==> SlotTaken(t, job, u) || u == row.scheduledFor
      {
        if id :| id in t.runs && t.runs[id].jobId == job && t.runs[id].scheduledFor == u {
          assert after.runs[id] == t.runs[id];
        }
      }
    }
  }

  class AutomationRepository {
    var jobs: map<string, Job>
    var runs: map<string, Run>

    ghost function Ledger(): State
      reads this
    {
      State(jobs, runs)
    }

    constructor ()
      ensures Ledger() == EMPTY && Inv(Ledger())
    {
      jobs, runs := map[], map[];
    }

    /** `insertJob`: a new row at revision 1; a taken id or a negative instant raises. */
    method CreateJob(job: string, enabled: bool, schedule: Schedule, next: Option<int>, ghost at: int)
      returns (r: Result<Job, Fault>)
      modifies this`jobs
      ensures Ledger() == Apply(old(Ledger()), Step.CreateJob(job, enabled, schedule, next, at))
      ensures r.Ok? <==> Enabled(old(Ledger()), Step.CreateJob(job, enabled, schedule, next, at))
      ensures r.Ok? ==> job in jobs && r.value == jobs[job] == Job(enabled, schedule, 1, next, None, 0)
    {
      if job in jobs || !Instant(next) {
        return Err(Constraint);
      }
      jobs := jobs[job := Job(enabled, schedule, 1, next, None, 0)];
      return Ok(jobs[job]);
    }

    /** `updateJobConfig`: only the expected revision is replaced, and the revision moves on. */
    method UpdateConfig(job: string, expectedRevision: nat, enabled: bool, schedule: Schedule, next: Option<int>, ghost at: int)
      returns (r: Result<Job, Fault>)
      modifies this`jobs
      ensures Ledger() == Apply(old(Ledger()), Configure(job, expectedRevision, enabled, schedule, next, at))
      ensures r.Ok? <==> Enabled(old(Ledger()), Configure(job, expectedRevision, enabled, schedule, next, at))
      ensures r == Err(NotFound) <==> job !in old(jobs)
      ensures r == Err(Conflict) <==> job in old(jobs) && old(jobs)[job].revision != expectedRevision
      ensures r.Ok? ==>
                && job in jobs && r.value == jobs[job]
                && r.value.enabled == enabled && r.value.schedule == schedule && r.value.next == next
                && r.value.revision == expectedRevision + 1
                && r.value.last == old(jobs)[job].last && r.value.failures == old(jobs)[job].failures
    {
      if job !in jobs {
        return Err(NotFound);
      }
      if jobs[job].revision != expectedRevision {
        return Err(Conflict);
      }
      if !Instant(next) {
        return Err(Constraint);
      }
      jobs := jobs[job := jobs[job].(enabled := enabled, schedule := schedule, next := next, revision := expectedRevision + 1)];
      return Ok(jobs[job]);
    }

    /** `updateJobRuntime`: overwrites the runtime columns and nothing of the configuration. */
    method UpdateRuntime(job: string, next: Option<int>, last: Option<int>, failures: nat) returns (r: Result<Job, Fault>)
      modifies this`jobs
      ensures Ledger() == Apply(old(Ledger()), SetRuntime(job, next, last, failures))
      ensures r.Ok? <==> Enabled(old(Ledger()), SetRuntime(job, next, last, failures))
      ensures r == Err(NotFound) <==> job !in old(jobs)
      ensures r.Ok? ==>
                && job in jobs && r.value == jobs[job]
                && r.value.next == next && r.value.last == last && r.value.failures == failures
                && r.value.enabled == old(jobs)[job].enabled && r.value.schedule == old(jobs)[job].schedule
                && r.value.revision == old(jobs)[job].revision
    {
      if job !in jobs {
        return Err(NotFound);
      }
      if !Instant(next) || !Instant(last) {
        return Err(Constraint);
      }
      jobs := jobs[job := Job(jobs[job].enabled, jobs[job].schedule, jobs[job].revision, next, last, failures)];
      return Ok(jobs[job]);
    }

    /** `listClaimableRuns(1)`: the oldest pending run. */
    method OldestPending() returns (oldest: Option<string>)
      ensures oldest.None? <==> forall id :: id in runs ==> runs[id].status != Pending
      ensures oldest.Some? ==>
                && oldest.value in runs && runs[oldest.value].status == Pending
                && forall id :: id in runs && runs[id].status == Pending ==>
                     Precedes(runs[oldest.value], oldest.value, runs[id], id)
    {
      oldest := None;
      var rest := runs.Keys;
      while rest != {}
        invariant rest <= runs.Keys
        invariant oldest.None? ==> forall id :: id in runs.Keys - rest ==> runs[id].status != Pending
        invariant oldest.Some? ==>
                    && oldest.value in runs && runs[oldest.value].status == Pending
                    && forall id :: id in runs.Keys - rest && runs[id].status == Pending ==>
                         Precedes(runs[oldest.value], oldest.value, runs[id], id)
        decreases rest
      {
        var id :| id in rest;
        rest := rest - {id};
        if runs[id].status == Pending {
          BelowReflexive(id);
          if oldest.None? {
            oldest := Some(id);
          } else if !Precedes(runs[oldest.value], oldest.value, runs[id], id) {
            var old' := oldest.value;
            BelowTotal(old', id);
            forall other | other in runs.Keys - rest && runs[other].status == Pending
              ensures Precedes(runs[id], id, runs[other], other)
            {
              if other != id {
                PrecedesTransitive(runs[id], id, runs[old'], old', runs[other], other);
              }
            }
            oldest := Some(id);
          }
        }
      }
    }

    /** The claim transaction of a wake: the oldest pending run goes to `owner`. */
    method ClaimNext(owner: string, at: int, leaseDuration: nat) returns (claimed: Option<string>)
      modifies this
      ensures claimed.None? <==> forall id :: id in old(runs) ==> old(runs)[id].status != Pending
      ensures claimed.None? ==> Ledger() == old(Ledger())
      ensures claimed.Some? ==>
                && Enabled(old(Ledger()), Claim(claimed.value, owner, at, at + leaseDuration))
                && Ledger() == Apply(old(Ledger()), Claim(claimed.value, owner, at, at + leaseDuration))
                && claimed.value in old(runs) && old(runs)[claimed.value].status == Pending
                && forall id :: id in old(runs) && old(runs)[id].status == Pending ==>
                     old(runs)[claimed.value].scheduledFor < old(runs)[id].scheduledFor
                     || (old(runs)[claimed.value].scheduledFor == old(runs)[id].scheduledFor && Ascends(claimed.value, id))
      ensures claimed.Some? ==>
                && claimed.value in runs && runs[claimed.value].status == Claimed
                && runs[claimed.value].lease == Some(Lease(at, owner, at + leaseDuration))
                && runs[claimed.value].attempt == old(runs)[claimed.value].attempt + 1
    {
      claimed := OldestPending();
      if claimed.Some? {
        forall id | id in runs
          ensures Below(claimed.value, id) <==> Ascends(claimed.value, id)
        {
          BelowIffAscends(claimed.value, id);
        }
        var run := runs[claimed.value];
        runs := runs[claimed.value := run.(status := Claimed, lease := Some(Lease(at, owner, at + leaseDuration)),
                                           attempt := run.attempt + 1, errorCode := None)];
      }
    }

    method MarkRunning(id: string, owner: string, at: int, expiresAt: int) returns (r: Result<Option<Run>, Fault>)
      modifies this
      ensures Ledger() == Apply(old(Ledger()), Step.MarkRunning(id, owner, at, expiresAt))
      ensures r.Ok? && r.value.Some? <==> Enabled(old(Ledger()), Step.MarkRunning(id, owner, at, expiresAt))
      ensures r == Ok(None) <==>
                !(id in old(runs) && old(runs)[id].status == Claimed && LeasedAt(old(runs)[id], owner, at))
      ensures r.Ok? && r.value.Some? ==>
                && id in runs && r.value.value == runs[id] && runs[id].status == Running
                && runs[id].lease.Some? && runs[id].lease.value.expiresAt == expiresAt
      ensures r.Err? ==> id in runs && HeldBy(runs[id], owner, at) && expiresAt < runs[id].lease.value.claimedAt
    {
      if id !in runs || runs[id].status != Claimed || !HeldBy(runs[id], owner, at) {
        return Ok(None);
      }
      if expiresAt < runs[id].lease.value.claimedAt {
        return Err(Constraint);
      }
      runs := runs[id := runs[id].(status := Running, lease := Some(runs[id].lease.value.(expiresAt := expiresAt)))];
      return Ok(Some(runs[id]));
    }

    method RenewLease(id: string, owner: string, at: int, expiresAt: int) returns (r: Result<Option<Run>, Fault>)
      modifies this
      ensures Ledger() == Apply(old(Ledger()), Renew(id, owner, at, expiresAt))
      ensures r.Ok? && r.value.Some? <==> Enabled(old(Ledger()), Renew(id, owner, at, expiresAt))
      ensures r == Ok(None) <==>
                !(id in old(runs) && old(runs)[id].status in {Claimed, Running} && LeasedAt(old(runs)[id], owner, at))
      ensures r.Ok? && r.value.Some? ==>
                && id in runs && r.value.value == runs[id] && runs[id].status == old(runs)[id].status
                && runs[id].lease.Some? && runs[id].lease.value.expiresAt == expiresAt
      ensures r.Err? ==> id in runs && HeldBy(runs[id], owner, at) && expiresAt < runs[id].lease.value.claimedAt
    {
      if id !in runs || !Live(runs[id].status) || !HeldBy(runs[id], owner, at) {
        return Ok(None);
      }
      if expiresAt < runs[id].lease.value.claimedAt {
        return Err(Constraint);
      }
      runs := runs[id := runs[id].(lease := Some(runs[id].lease.value.(expiresAt := expiresAt)))];
      return Ok(Some(runs[id]));
    }

    /** Binding the same agent run again is a replay and succeeds without a lease. */
    method BindRunId(id: string, owner: string, at: int, runId: string) returns (row: Option<Run>)
      modifies this
      ensures Ledger() == Apply(old(Ledger()), Bind(id, owner, at, runId))
      ensures row.Some? <==> Enabled(old(Ledger()), Bind(id, owner, at, runId))
                             || (id in old(runs) && old(runs)[id].runId == Some(runId))
      ensures row.Some? ==> id in runs && row.value == runs[id] && row.value.runId == Some(runId)
    {
      if id in runs && runs[id].runId == Some(runId) {
        return Some(runs[id]);
      }
      if id !in runs || runs[id].status != Running || !HeldBy(runs[id], owner, at) || runs[id].runId.Some? {
        return None;
      }
      runs := runs[id := runs[id].(runId := Some(runId))];
      return Some(runs[id]);
    }

    method FinishRun(id: string, owner: string, at: int, outcome: Status, runId: Option<string>, error: Option<string>)
      returns (row: Option<Run>)
      requires Executed(outcome)
      modifies this
      ensures Ledger() == Apply(old(Ledger()), Finish(id, owner, at, outcome, runId, error))
      ensures row.Some? <==> Enabled(old(Ledger()), Finish(id, owner, at, outcome, runId, error))
      ensures row.Some? <==> id in old(runs) && old(runs)[id].status == Running && LeasedAt(old(runs)[id], owner, at)
      ensures row.Some? ==>
                && id in runs && row.value == runs[id] && runs[id].status == outcome
                && runs[id].errorCode == error && runs[id].lease.None?
                && runs[id].runId == if runId.Some? then runId else old(runs)[id].runId
    {
      if id !in runs || runs[id].status != Running || !HeldBy(runs[id], owner, at) {
        return None;
      }
      var run := runs[id];
      runs := runs[id := run.(status := outcome, lease := None, errorCode := error,
                              runId := if runId.Some? then runId else run.runId)];
      SettleJob(run.jobId, outcome, run.scheduledFor);
      return Some(runs[id]);
    }

    /** The job columns written with a terminal commit. */
    method SettleJob(job: string, outcome: Status, scheduledFor: int)
      modifies this`jobs
      ensures jobs == if job in old(jobs) then old(jobs)[job := Settle(old(jobs)[job], outcome, scheduledFor)] else old(jobs)
    {
      if job in jobs {
        if outcome == Succeeded {
          jobs := jobs[job := jobs[job].(last := Later(jobs[job].last, scheduledFor), failures := 0)];
        } else if outcome == Failed {
          jobs := jobs[job := jobs[job].(last := Later(jobs[job].last, scheduledFor), failures := jobs[job].failures + 1)];
        } else {
          jobs := jobs[job := jobs[job]];
        }
      }
    }

    /** One expired row: back to the queue, or failed and settled. `steps` is the history since `start`. */
    method RecoverRow(id: string, at: int, resumable: set<string>, ghost start: State, ghost steps: seq<Step>)
      returns (requeued: bool, ghost longer: seq<Step>)
      requires Inv(Ledger()) && Ledger() == Execute(start, steps)
      requires id in runs && LeaseOver(runs[id], at)
      modifies this
      ensures Inv(Ledger()) && Ledger() == Execute(start, longer)
      ensures |longer| == |steps| + 1 && longer[..|steps|] == steps
      ensures longer[|steps|].RecoverRun? && longer[|steps|].at == at
      ensures requeued == Requeues(old(runs)[id], resumable)
      ensures id in runs && runs == old(runs)[id := runs[id]] && RecoveredTo(old(runs)[id], runs[id], resumable)
    {
      hide Execute, Inv;
      var run := runs[id];
      ghost var step := RecoverRun(id, at, run.runId.Some? && run.runId.value in resumable);
      InvStep(Ledger(), step);
      ExecuteSnoc(start, steps, step);
      longer := steps + [step];
      requeued := Requeues(run, resumable);
      if requeued {
        runs := runs[id := Requeued(run)];
      } else {
        runs := runs[id := run.(status := Failed, lease := None,
                                errorCode := Some("AUTOMATION_INTERRUPTED_BY_RESTART"))];
        SettleJob(run.jobId, Failed, run.scheduledFor);
      }
    }

    /**
     Startup recovery: every expired lease is taken back. Claims and resumable executions are queued
     again; other interrupted executions fail. `resumable` holds the agent runs that can be resumed.
     */
    method RecoverExpired(at: int, resumable: set<string>)
      returns (requeued: set<string>, failed: set<string>, ghost steps: seq<Step>)
      requires Inv(Ledger())
      modifies this
      ensures Inv(Ledger()) && Ledger() == Execute(old(Ledger()), steps)
      ensures forall i :: 0 <= i < |steps| ==> steps[i].RecoverRun? && steps[i].at == at
      ensures runs.Keys == old(runs).Keys
      ensures forall id :: id in runs && runs[id].lease.Some? ==> runs[id].lease.value.expiresAt > at && runs[id] == old(runs)[id]
      ensures forall id :: id in runs ==>
                if LeaseOver(old(runs)[id], at) then RecoveredTo(old(runs)[id], runs[id], resumable)
                else runs[id] == old(runs)[id]
      ensures forall id :: id in requeued <==>
                id in old(runs) && LeaseOver(old(runs)[id], at) && Requeues(old(runs)[id], resumable)
      ensures forall id :: id in failed <==>
                id in old(runs) && LeaseOver(old(runs)[id], at) && !Requeues(old(runs)[id], resumable)
    {
      hide Execute, Inv, RecoveredTo;
      ExecuteNone(Ledger());
      requeued, failed, steps := {}, {}, [];
      var rest := set id | id in runs && LeaseOver(runs[id], at);
      ghost var expired := rest;
      hide LeaseOver, Requeues;
      while rest != {}
        invariant rest <= expired && Inv(Ledger()) && Ledger() == Execute(old(Ledger()), steps)
        invariant forall i :: 0 <= i < |steps| ==> steps[i].RecoverRun? && steps[i].at == at
        invariant runs.Keys == old(runs).Keys
        invariant forall id :: id in runs && (id in rest || id !in expired) ==> runs[id] == old(runs)[id]
        invariant forall id :: id in expired - rest ==> RecoveredTo(old(runs)[id], runs[id], resumable)
        invariant forall id :: id in requeued <==> id in expired - rest && Requeues(old(runs)[id], resumable)
        invariant forall id :: id in failed <==> id in expired - rest && !Requeues(old(runs)[id], resumable)
        decreases rest
      {
        var id :| id in rest;
        var back;
        ghost var longer;
        back, longer := RecoverRow(id, at, resumable, old(Ledger()), steps);
        assert forall i :: 0 <= i < |steps| ==> longer[i] == longer[..|steps|][i];
        if back {
          requeued := requeued + {id};
        } else {
          failed := failed + {id};
        }
        steps := longer;
        rest := rest - {id};
      }
      NothingLeftExpired(old(Ledger()), runs, at, resumable);
    }

    static lemma NothingLeftExpired(s: State, after: map<string, Run>, at: int, resumable: set<string>)
      requires Inv(s) && after.Keys == s.runs.Keys
      requires forall id :: id in after ==>
                 if LeaseOver(s.runs[id], at) then RecoveredTo(s.runs[id], after[id], resumable) else after[id] == s.runs[id]
      ensures forall id :: id in after && after[id].lease.Some? ==> after[id].lease.value.expiresAt > at && after[id] == s.runs[id]
    {
      forall id | id in after && after[id].lease.Some?
        ensures after[id].lease.value.expiresAt > at && after[id] == s.runs[id]
      {
        assert RunOk(s.runs[id]);
      }
    }

    /** The row of an expired lease after recovery: no lease, queued again or failed. */
    static predicate RecoveredTo(before: Run, after: Run, resumable: set<string>) {
      after == if Requeues(before, resumable) then Requeued(before)
               else before.(status := Failed, lease := None, errorCode := Some("AUTOMATION_INTERRUPTED_BY_RESTART"))
    }

    static predicate LeaseOver(run: Run, at: int) {
      Live(run.status) && Expired(run, at)
    }

    static predicate Requeues(run: Run, resumable: set<string>) {
      run.status == Claimed || (run.runId.Some? && run.runId.value in resumable)
    }

    /**
     `reserveManualRun`: a request key is answered by its first run for ever; a new key takes the
     first free occurrence slot from the time of the request.
     */
    method ReserveManual(id: string, job: string, key: string, at: nat) returns (r: Result<(bool, string), Fault>)
      requires Inv(Ledger())
      modifies this
      ensures Inv(Ledger())
      ensures r.Err? || !r.value.0 ==> Ledger() == old(Ledger())
      ensures forall known :: known in old(runs) && old(runs)[known].requestKey == Some(key) ==>
                r == if old(runs)[known].jobId == job then Ok((false, known)) else Err(Conflict)
      ensures !KeyTaken(old(Ledger()), key) && job !in old(jobs) <==> r == Err(NotFound)
      ensures !KeyTaken(old(Ledger()), key) && job in old(jobs) && id in old(runs) <==> r == Err(Constraint)
      ensures r == Err(CollisionLimit) <==>
                && !KeyTaken(old(Ledger()), key) && job in old(jobs) && id !in old(runs)
                && forall t :: at <= t < at + 1000 ==> SlotTaken(old(Ledger()), job, t)
      ensures r.Ok? && r.value.0 ==>
                && r.value.1 == id && id in runs && runs[id].requestKey == Some(key) && runs[id].status == Pending
                && at <= runs[id].scheduledFor < at + 1000
                && (forall t :: at <= t < runs[id].scheduledFor ==> SlotTaken(old(Ledger()), job, t))
                && Enabled(old(Ledger()), InsertRun(id, job, runs[id].scheduledFor, Some(key), false))
                && Ledger() == Apply(old(Ledger()), InsertRun(id, job, runs[id].scheduledFor, Some(key), false))
    {
      hide Inv, Apply, Enabled;
      if replay :| replay in runs && runs[replay].requestKey == Some(key) {
        forall known | known in runs && runs[known].requestKey == Some(key)
          ensures known == replay
        {
          KeyNamesOneRun(Ledger(), known, replay);
        }
        if runs[replay].jobId != job {
          return Err(Conflict);
        }
        return Ok((false, replay));
      }
      if job !in jobs {
        return Err(NotFound);
      }
      if id in runs {
        return Err(Constraint);
      }
      var slot := at;
      for offset := 0 to COLLISION_LIMIT
        invariant slot == at + offset
        invariant Ledger() == old(Ledger())
        invariant forall t :: at <= t < slot ==> SlotTaken(Ledger(), job, t)
      {
        if !(exists taken :: taken in runs && runs[taken].jobId == job && runs[taken].scheduledFor == slot) {
          InsertOutcome(Ledger(), id, job, slot, Some(key), false);
          InvStep(Ledger(), InsertRun(id, job, slot, Some(key), false));
          runs := runs[id := FreshRun(job, slot, Some(key), false)];
          return Ok((true, id));
        }
        slot := slot + 1;
      }
      return Err(CollisionLimit);
    }

    /**
     `insertRun` with `ON CONFLICT(job_id, scheduled_for) DO NOTHING`; `false` when another constraint
     raises. `steps` is the history since `start`.
     */
    method InsertPlanned(job: string, row: Planned, ghost start: State, ghost steps: seq<Step>) returns (inserted: bool)
      requires Inv(Ledger()) && Ledger() == Execute(start, steps)
      modifies this`runs
      ensures Inv(Ledger()) && Ledger() == Execute(start, steps + [InsertStep(job, row)])
      ensures inserted <==> !InsertRaises(old(Ledger()), row.id, job, row.scheduledFor, None)
      ensures inserted ==> Ledger() == Inserted(old(Ledger()), job, row)
    {
      hide Execute, Inv, Apply, Enabled;
      ExecuteSnoc(start, steps, InsertStep(job, row));
      InsertOutcome(Ledger(), row.id, job, row.scheduledFor, None, row.skipped);
      if InsertRaises(State(jobs, runs), row.id, job, row.scheduledFor, None) {
        return false;
      }
      InvStep(Ledger(), InsertStep(job, row));
      if !SlotTaken(State(jobs, runs), job, row.scheduledFor) {
        runs := runs[row.id := FreshRun(job, row.scheduledFor, None, row.skipped)];
      }
      return true;
    }

    /** The guarded cursor update that ends a materialization. */
    method MoveCursor(job: string, expectedNext: int, next: Option<int>, last: Option<int>, ghost start: State, ghost steps: seq<Step>)
      requires Inv(Ledger()) && Ledger() == Execute(start, steps)
      requires job in jobs && jobs[job].enabled && jobs[job].next == Some(expectedNext) && Instant(next) && Instant(last)
      modifies this`jobs
      ensures Inv(Ledger()) && Ledger() == Execute(start, steps + [AdvanceCursor(job, expectedNext, next, last)])
    {
      hide Execute, Inv;
      ghost var advance := AdvanceCursor(job, expectedNext, next, last);
      InvStep(Ledger(), advance);
      ExecuteSnoc(start, steps, advance);
      jobs := jobs[job := jobs[job].(next := next, last := if last.Some? then last else jobs[job].last)];
    }

    /**
     `materializeDueJob`: a stale cursor changes nothing; otherwise the planned rows are inserted,
     occupied occurrences are left alone, and the cursor moves, all or nothing.
     */
    method MaterializeDueJob(job: string, expectedNext: int, next: Option<int>, last: Option<int>, rows: seq<Planned>)
      returns (r: Result<bool, Fault>)
      requires Inv(Ledger())
      modifies this
      ensures Inv(Ledger())
      ensures r == Ok(false) <==> !AtCursor(old(jobs), job, expectedNext)
      ensures r.Err? <==>
                && AtCursor(old(jobs), job, expectedNext)
                && (!Instant(next) || !Instant(last) || exists i :: 0 <= i < |rows| && BadRow(old(Ledger()), job, rows, i))
      ensures r != Ok(true) ==> Ledger() == old(Ledger())
      ensures r == Ok(true) ==>
                && Ledger() == Execute(old(Ledger()), Inserts(job, rows) + [AdvanceCursor(job, expectedNext, next, last)])
                && (forall i :: 0 <= i < |rows| ==> SlotTaken(Execute(old(Ledger()), Inserts(job, rows)), job, rows[i].scheduledFor))
                && forall i :: 0 <= i < |rows| ==> SlotTaken(Ledger(), job, rows[i].scheduledFor)
    {
      hide Execute, Inv, Apply, Enabled, SlotTaken, Inserts;
      if !AtCursor(jobs, job, expectedNext) {
        return Ok(false);
      }
      var savedRuns := runs;
      ExecuteNone(Ledger());
      InsertsNone(job, rows);
      for i := 0 to |rows|
        invariant jobs == old(jobs) && Inv(Ledger())
        invariant Ledger() == Execute(old(Ledger()), Inserts(job, rows[..i]))
        invariant AfterRows(old(Ledger()), Ledger(), job, rows, i)
        invariant forall k :: 0 <= k < i ==> !BadRow(old(Ledger()), job, rows, k)
      {
        ghost var before := Ledger();
        InsertsSnoc(job, rows, i);
        var inserted := InsertPlanned(job, rows[i], old(Ledger()), Inserts(job, rows[..i]));
        AfterRowsStep(old(Ledger()), before, job, rows, i);
        if !inserted {
          runs := savedRuns;
          return Err(Constraint);
        }
      }
      if !Instant(next) || !Instant(last) {
        runs := savedRuns;
        return Err(Constraint);
      }
      assert rows[..|rows|] == rows;
      ghost var before := Ledger();
      MoveCursor(job, expectedNext, next, last, old(Ledger()), Inserts(job, rows));
      SlotsStay(before, Ledger(), job, rows);
      return Ok(true);
    }

    /** The job is enabled and its cursor is the one the plan was made for. */
    static predicate AtCursor(jobs: map<string, Job>, job: string, expectedNext: int) {
      job in jobs && jobs[job].enabled && jobs[job].next == Some(expectedNext)
    }

    static lemma SlotsStay(before: State, after: State, job: string, rows: seq<Planned>)
      requires after.runs == before.runs
      requires forall k :: 0 <= k < |rows| ==> SlotTaken(before, job, rows[k].scheduledFor)
      ensures forall k :: 0 <= k < |rows| ==> SlotTaken(after, job, rows[k].scheduledFor)
    {
    }
  }
}
