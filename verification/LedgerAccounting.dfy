/**
 The consecutive-failure counter of a job, over every history in which nobody overwrites its
 runtime columns by hand.
 */
module LedgerAccounting {
  import opened Ledger
  import opened LedgerSafety

  /** An open row is replaced by its next version. */
  ghost predicate Advances(s: State, id: string, after: Run) {
    && id in s.runs && s.runs[id].jobId in s.jobs && !Terminal(s.runs[id].status)
    && SameSlot(after, s.runs[id]) && (Terminal(after.status) ==> Executed(after.status))
  }

  function Replaced(s: State, id: string, after: Run): State
    requires id in s.runs
  {
    State(Settled(s.jobs, s.runs[id], after), s.runs[id := after])
  }

  lemma RunStepAdvances(s: State, step: Step)
    requires Inv(s) && OnRun(step) && Enabled(s, step)
    ensures s.runs[step.id].lease.Some? || step.Claim?
    ensures Advances(s, step.id, Updated(s.runs[step.id], step))
    ensures Apply(s, step) == Replaced(s, step.id, Updated(s.runs[step.id], step))
  {
  }

  // ----- the failure counter

  /** The step commits a run of the job with this outcome. */
  ghost predicate Settles(s: State, step: Step, job: string, outcome: Status) {
    && OnRun(step) && Enabled(s, step) && s.runs[step.id].jobId == job
    && (s.runs[step.id].lease.Some? || step.Claim?)
    && Updated(s.runs[step.id], step).status == outcome
  }

  ghost predicate SettlesAt(steps: seq<Step>, k: nat, job: string, outcome: Status)
    requires k < |steps|
  {
    Settles(Execute(EMPTY, steps[..k]), steps[k], job, outcome)
  }

  /** The failed commits of the job with no successful commit after them. */
  ghost function FailedSinceSuccess(steps: seq<Step>, job: string): set<nat> {
    set k: nat | k < |steps| && SettlesAt(steps, k, job, Failed) && NoneAfter(steps, k, job)
  }

  ghost predicate NoneAfter(steps: seq<Step>, k: nat, job: string) {
    forall m: nat :: k < m < |steps| ==> !SettlesAt(steps, m, job, Succeeded)
  }

  /** The runtime columns of the job are written by hand. */
  predicate Overwrites(step: Step, job: string) {
    step.SetRuntime? && step.job == job
  }

  /** What one step does to the counter. */
  lemma CounterStep(s: State, step: Step, job: string)
    requires Inv(s) && !Overwrites(step, job)
    ensures job in s.jobs ==> job in Apply(s, step).jobs
    ensures Settles(s, step, job, Failed) || Settles(s, step, job, Succeeded) ==> job in s.jobs
    ensures job in s.jobs ==>
              Apply(s, step).jobs[job].failures
              == if Settles(s, step, job, Succeeded) then 0
                 else s.jobs[job].failures + if Settles(s, step, job, Failed) then 1 else 0
    ensures job !in s.jobs && job in Apply(s, step).jobs ==> Apply(s, step).jobs[job].failures == 0
  {
    if Enabled(s, step) && OnRun(step) {
      RunStepAdvances(s, step);
    }
  }

  lemma SettlesPrefix(front: seq<Step>, step: Step, k: nat, job: string, outcome: Status)
    requires k <= |front|
    ensures SettlesAt(front + [step], k, job, outcome)
         == if k < |front| then SettlesAt(front, k, job, outcome) else Settles(Execute(EMPTY, front), step, job, outcome)
  {
    hide Execute, Settles;
    assert (front + [step])[..k] == front[..k] && front[..|front|] == front;
  }

  /** How one more step changes the failures since the last success. */
  lemma FailedSnoc(front: seq<Step>, step: Step, job: string)
    ensures var s := Execute(EMPTY, front);
            FailedSinceSuccess(front + [step], job)
            == if Settles(s, step, job, Succeeded) then {}
               else FailedSinceSuccess(front, job) + if Settles(s, step, job, Failed) then {|front|} else {}
  {
    hide Execute, Settles, SettlesAt;
    var s, steps := Execute(EMPTY, front), front + [step];
    forall k: nat, outcome | k <= |front|
      ensures SettlesAt(steps, k, job, outcome)
           == if k < |front| then SettlesAt(front, k, job, outcome) else Settles(s, step, job, outcome)
    {
      SettlesPrefix(front, step, k, job, outcome);
    }
    forall k: nat | k < |front|
      ensures NoneAfter(steps, k, job) <==> NoneAfter(front, k, job) && !Settles(s, step, job, Succeeded)
    {
      assert NoneAfter(steps, k, job) ==> !SettlesAt(steps, |front|, job, Succeeded);
    }
    assert NoneAfter(steps, |front|, job);
    assert !(Settles(s, step, job, Succeeded) && Settles(s, step, job, Failed)) by { OneOutcome(s, step, job); }
  }

  lemma OneOutcome(s: State, step: Step, job: string)
    ensures !(Settles(s, step, job, Succeeded) && Settles(s, step, job, Failed))
  {
  }

  /** Over every history the counter is the number of failed commits since the last successful one. */
  lemma {:induction false} FailuresAreConsecutive(steps: seq<Step>, job: string)
    requires forall i :: 0 <= i < |steps| ==> !Overwrites(steps[i], job)
    ensures var s := Execute(EMPTY, steps);
            |FailedSinceSuccess(steps, job)| == if job in s.jobs then s.jobs[job].failures else 0
  {
    if steps != [] {
      var front, step := steps[..|steps| - 1], steps[|steps| - 1];
      FailuresAreConsecutive(front, job);
      InvAlways(EMPTY, front);
      CounterStep(Execute(EMPTY, front), step, job);
      ExecuteSnoc(EMPTY, front, step);
      FailedSnoc(front, step, job);
      hide Execute, Apply, Settles, FailedSinceSuccess;
      assert steps == front + [step];
      assert |front| !in FailedSinceSuccess(front, job) by { FailedInRange(front, job); }
    }
  }

  lemma FailedInRange(steps: seq<Step>, job: string)
    ensures forall k :: k in FailedSinceSuccess(steps, job) ==> k < |steps|
  {
  }
}
