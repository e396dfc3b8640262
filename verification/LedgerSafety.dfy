/**
 What every sequence of ledger steps keeps, whoever issues them and in whatever order:
 the table invariants, the finality of terminal rows, and at-most-once execution.
 */
module LedgerSafety {
  import opened Ledger

  // ----- the invariant of the tables

  predicate RunOk(run: Run) {
    && (run.lease.Some? <==> Live(run.status))
    && (run.lease.Some? ==> run.lease.value.expiresAt >= run.lease.value.claimedAt)
    && (run.status == Skipped ==> run.attempt == 0)
    && (Live(run.status) || Executed(run.status) ==> run.attempt >= 1)
    && (run.status == Pending || Live(run.status) ==> run.errorCode.None?)
    && run.scheduledFor >= 0
  }

  predicate SameSlot(a: Run, b: Run) {
    a.jobId == b.jobId && a.scheduledFor == b.scheduledFor
  }

  predicate SameKey(a: Run, b: Run) {
    a.requestKey.Some? && a.requestKey == b.requestKey
  }

  ghost predicate OneRunPerSlot(s: State) {
    forall a, b :: a in s.runs && b in s.runs && SameSlot(s.runs[a], s.runs[b]) ==> a == b
  }

  ghost predicate OneRunPerKey(s: State) {
    forall a, b :: a in s.runs && b in s.runs && SameKey(s.runs[a], s.runs[b]) ==> a == b
  }

  ghost predicate Inv(s: State) {
    && (forall id :: id in s.runs ==> RunOk(s.runs[id]) && s.runs[id].jobId in s.jobs)
    && (forall j :: j in s.jobs ==> JobOk(s.jobs[j]))
    && OneRunPerSlot(s)
    && OneRunPerKey(s)
  }

  /** An update that moves a row addresses an existing row and keeps what identifies it. */
  lemma UpdateKeepsIdentity(run: Run, step: Step)
    requires run.lease.Some? || step.Claim?
    ensures var after := Updated(run, step);
            && after.jobId == run.jobId && after.scheduledFor == run.scheduledFor && after.requestKey == run.requestKey
  {
  }

  lemma UpdateKeepsRow(run: Run, step: Step, s: State)
    requires RunOk(run) && OnRun(step) && step.id in s.runs && s.runs[step.id] == run && Enabled(s, step)
    ensures run.lease.Some? || step.Claim?
    ensures RunOk(Updated(run, step))
  {
  }

  predicate JobOk(job: Job) {
    job.revision >= 1 && Instant(job.next) && Instant(job.last)
  }

  lemma ReplaceRowKeepsInv(s: State, id: string, row: Run, jobs: map<string, Job>)
    requires Inv(s) && id in s.runs && RunOk(row)
    requires SameSlot(row, s.runs[id]) && row.requestKey == s.runs[id].requestKey
    requires jobs.Keys == s.jobs.Keys && forall j :: j in jobs ==> JobOk(jobs[j])
    ensures Inv(State(jobs, s.runs[id := row]))
  {
    hide JobOk, RunOk;
    var runs := s.runs[id := row];
    assert forall a :: a in runs ==> SameSlot(runs[a], s.runs[a]) && runs[a].requestKey == s.runs[a].requestKey;
  }

  lemma RunStepKeepsInv(s: State, step: Step)
    requires Inv(s) && OnRun(step) && Enabled(s, step)
    ensures Inv(Apply(s, step))
  {
    var before := s.runs[step.id];
    UpdateKeepsRow(before, step, s);
    UpdateKeepsIdentity(before, step);
    var after := Updated(before, step);
    var jobs := Settled(s.jobs, before, after);
    assert jobs.Keys == s.jobs.Keys;
    ReplaceRowKeepsInv(s, step.id, after, jobs);
    assert Apply(s, step) == State(jobs, s.runs[step.id := after]);
  }

  lemma InsertKeepsInv(s: State, step: Step)
    requires Inv(s) && step.InsertRun? && Enabled(s, step)
    ensures Inv(Apply(s, step))
  {
    var after := Apply(s, step);
    assert forall a :: a in s.runs ==> !SameSlot(s.runs[a], after.runs[step.id]);
    assert forall a :: a in s.runs ==> !SameKey(s.runs[a], after.runs[step.id]) && !SameKey(after.runs[step.id], s.runs[a]);
  }

  lemma InvStep(s: State, step: Step)
    requires Inv(s)
    ensures Inv(Apply(s, step))
  {
    if Enabled(s, step) {
      if OnRun(step) {
        RunStepKeepsInv(s, step);
      } else if step.InsertRun? {
        InsertKeepsInv(s, step);
      }
    }
  }

  /** Every reachable ledger satisfies the invariant. */
  lemma {:induction false} InvAlways(s: State, steps: seq<Step>)
    requires Inv(s)
    ensures Inv(Execute(s, steps))
  {
    if steps != [] {
      InvAlways(s, steps[..|steps| - 1]);
      InvStep(Execute(s, steps[..|steps| - 1]), steps[|steps| - 1]);
    }
  }

  // ----- rows only move forward

  /** What one step may do to an existing row: nothing, or the update it was addressed with. */
  lemma RowStep(s: State, step: Step, id: string)
    requires id in s.runs
    ensures id in Apply(s, step).runs
    ensures Apply(s, step).runs[id] == s.runs[id]
            || (Enabled(s, step) && OnRun(step) && step.id == id
                && (s.runs[id].lease.Some? || step.Claim?)
                && Apply(s, step).runs[id] == Updated(s.runs[id], step))
  {
  }

  /** A terminal row is final: no later step changes any of its columns. */
  lemma {:induction false} TerminalIsFinal(s: State, steps: seq<Step>, id: string)
    requires Inv(s) && id in s.runs && Terminal(s.runs[id].status)
    ensures id in Execute(s, steps).runs && Execute(s, steps).runs[id] == s.runs[id]
  {
    if steps != [] {
      var front := steps[..|steps| - 1];
      TerminalIsFinal(s, front, id);
      InvAlways(s, front);
      RowStep(Execute(s, front), steps[|steps| - 1], id);
    }
  }

  /** A row never disappears, and the job, occurrence and request it stands for never change. */
  lemma {:induction false} IdentityIsStable(s: State, steps: seq<Step>, id: string)
    requires id in s.runs
    ensures id in Execute(s, steps).runs
    ensures var after := Execute(s, steps).runs[id];
            && after.jobId == s.runs[id].jobId && after.scheduledFor == s.runs[id].scheduledFor
            && after.requestKey == s.runs[id].requestKey && after.attempt >= s.runs[id].attempt
  {
    if steps != [] {
      var front := steps[..|steps| - 1];
      IdentityIsStable(s, front, id);
      RowStep(Execute(s, front), steps[|steps| - 1], id);
    }
  }

  /** The agent run bound to a row survives every renewal, crash and requeue until the terminal commit. */
  lemma {:induction false} BindingIsKept(s: State, steps: seq<Step>, id: string)
    requires Inv(s) && id in s.runs && s.runs[id].runId.Some?
    ensures id in Execute(s, steps).runs
    ensures !Terminal(Execute(s, steps).runs[id].status) ==> Execute(s, steps).runs[id].runId == s.runs[id].runId
  {
    if steps != [] {
      var front := steps[..|steps| - 1];
      BindingIsKept(s, front, id);
      InvAlways(s, front);
      var mid := Execute(s, front);
      RowStep(mid, steps[|steps| - 1], id);
      if Terminal(mid.runs[id].status) {
        TerminalIsFinal(mid, [steps[|steps| - 1]], id);
      }
    }
  }

  /** A configuration revision, once replaced, never matches again: of two edits based on it one wins. */
  lemma {:induction false} RevisionIsSpent(s: State, steps: seq<Step>, job: string, revision: nat)
    requires job in s.jobs && s.jobs[job].revision > revision
    ensures job in Execute(s, steps).jobs && Execute(s, steps).jobs[job].revision > revision
    ensures forall enabled, schedule, next, at ::
              !Enabled(Execute(s, steps), Configure(job, revision, enabled, schedule, next, at))
  {
    if steps != [] {
      RevisionIsSpent(s, steps[..|steps| - 1], job, revision);
    }
  }

  // ----- at-most-once execution

  /** The executor of a run is started: an effective move into `Running`. */
  ghost predicate IsStart(s: State, step: Step, id: string) {
    step.MarkRunning? && step.id == id && Enabled(s, step)
  }

  /** A started run goes back to the queue: its linked agent run can be resumed. */
  ghost predicate IsResumption(s: State, step: Step, id: string) {
    step.RecoverRun? && step.id == id && Enabled(s, step)
    && s.runs[id].status == Running && s.runs[id].runId.Some? && step.resumable
  }

  ghost predicate IsClaim(s: State, step: Step, id: string) {
    step.Claim? && step.id == id && Enabled(s, step)
  }

  /** How often an event happened to a run over a history. */
  ghost function Count(event: (State, Step, string) -> bool, s: State, steps: seq<Step>, id: string): nat {
    if steps == [] then 0 else
      var front := steps[..|steps| - 1];
      Count(event, s, front, id) + if event(Execute(s, front), steps[|steps| - 1], id) then 1 else 0
  }

  ghost function Starts(steps: seq<Step>, id: string): nat {
    Count(IsStart, EMPTY, steps, id)
  }

  ghost function Resumptions(steps: seq<Step>, id: string): nat {
    Count(IsResumption, EMPTY, steps, id)
  }

  ghost function Claims(steps: seq<Step>, id: string): nat {
    Count(IsClaim, EMPTY, steps, id)
  }

  /** 1 for a run that is executing or was executed. */
  ghost function Started(s: State, id: string): nat {
    if id in s.runs && (s.runs[id].status == Running || Executed(s.runs[id].status)) then 1 else 0
  }

  ghost function Attempts(s: State, id: string): nat {
    if id in s.runs then s.runs[id].attempt else 0
  }

  lemma AccountForStep(s: State, step: Step, id: string)
    requires Inv(s)
    ensures Started(Apply(s, step), id) + (if IsResumption(s, step, id) then 1 else 0)
         == Started(s, id) + (if IsStart(s, step, id) then 1 else 0)
    ensures Attempts(Apply(s, step), id) == Attempts(s, id) + (if IsClaim(s, step, id) then 1 else 0)
  {
    if id in s.runs {
      RowStep(s, step, id);
    }
  }

  /**
   Conservation over every history: each start of a run is either its current or final
   execution or was handed back by a resumption, and the attempt counter counts the claims.
   */
  lemma {:induction false} StartsAreAccountedFor(steps: seq<Step>, id: string)
    ensures Starts(steps, id) == Resumptions(steps, id) + Started(Execute(EMPTY, steps), id)
    ensures Claims(steps, id) == Attempts(Execute(EMPTY, steps), id)
  {
    if steps != [] {
      var front := steps[..|steps| - 1];
      StartsAreAccountedFor(front, id);
      InvAlways(EMPTY, front);
      AccountForStep(Execute(EMPTY, front), steps[|steps| - 1], id);
    }
  }

  /** Without resumable agent runs an occurrence is executed at most once, through any crashes and any schedulers. */
  lemma AtMostOneExecution(steps: seq<Step>, id: string)
    requires forall i :: 0 <= i < |steps| && steps[i].RecoverRun? ==> !steps[i].resumable
    ensures Starts(steps, id) <= 1
  {
    StartsAreAccountedFor(steps, id);
    NoResumptions(steps, id);
  }

  lemma {:induction false} NoResumptions(steps: seq<Step>, id: string)
    requires forall i :: 0 <= i < |steps| && steps[i].RecoverRun? ==> !steps[i].resumable
    ensures Resumptions(steps, id) == 0
  {
    if steps != [] {
      NoResumptions(steps[..|steps| - 1], id);
    }
  }
}
