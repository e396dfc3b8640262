/**
 The tables as a function of the history: what every column of a row is comes from the last
 effective step that writes it, and whether a step takes effect is decided by those steps alone.
 */
module History {
  import opened Common
  import opened Ledger
  import opened LedgerSafety

  /** What a history is searched for: the writers of a column, by row. */
  datatype Writers =
    | Insertion(id: string)
    | Phase(id: string)
    | Claiming(id: string)
    | Expiry(id: string)
    | Binding(id: string)
    | Verdict(id: string)
    | Creation(job: string)
    | SetUp(job: string)
    | Cursor(job: string)

  predicate Writes(step: Step, w: Writers) {
    match w
    case Insertion(id) => step.InsertRun? && step.id == id
    case Phase(id) => (step.InsertRun? || step.Claim? || step.MarkRunning? || step.Finish? || step.RecoverRun?) && step.id == id
    case Claiming(id) => step.Claim? && step.id == id
    case Expiry(id) => (step.Claim? || step.MarkRunning? || step.Renew?) && step.id == id
    case Binding(id) => (step.Bind? || (step.Finish? && step.runId.Some?)) && step.id == id
    case Verdict(id) => (step.InsertRun? || step.Claim? || step.Finish? || step.RecoverRun?) && step.id == id
    case Creation(job) => step.CreateJob? && step.job == job
    case SetUp(job) => (step.CreateJob? || step.Configure?) && step.job == job
    case Cursor(job) => (step.CreateJob? || step.Configure? || step.SetRuntime? || step.AdvanceCursor?) && step.job == job
  }

  ghost function Before(steps: seq<Step>, k: nat): State
    requires k <= |steps|
  {
    Execute(EMPTY, steps[..k])
  }

  /** The last effective writer. */
  ghost function LastOf(steps: seq<Step>, w: Writers): (k: Option<nat>)
    ensures k.Some? ==> k.value < |steps| && Writes(steps[k.value], w)
  {
    if steps == [] then None else
      var front, step := steps[..|steps| - 1], steps[|steps| - 1];
      if Enabled(Execute(EMPTY, front), step) && Writes(step, w) then Some(|front|) else LastOf(front, w)
  }

  lemma LastSnoc(front: seq<Step>, step: Step, w: Writers)
    ensures LastOf(front + [step], w)
         == if Enabled(Execute(EMPTY, front), step) && Writes(step, w) then Some(|front|) else LastOf(front, w)
  {
    assert (front + [step])[..|front + [step]| - 1] == front;
  }

  /** The last writer took effect, and no later step that writes did. */
  lemma {:induction false} LastIsLast(steps: seq<Step>, w: Writers)
    ensures var k := LastOf(steps, w);
            && (k.Some? ==> Enabled(Before(steps, k.value), steps[k.value]))
            && forall m: nat :: m < |steps| && Writes(steps[m], w) && Enabled(Before(steps, m), steps[m]) ==>
                 k.Some? && m <= k.value
  {
    if steps != [] {
      var front, step := steps[..|steps| - 1], steps[|steps| - 1];
      LastIsLast(front, w);
      hide Enabled, Writes, Execute;
      assert steps == front + [step];
      LastSnoc(front, step, w);
      assert forall m: nat :: m <= |front| ==> steps[..m] == front[..m];
      assert front[..|front|] == front;
    }
  }

  // ----- the columns of a run

  /** The recovery at step `k` queues the run again: it was not started, or its agent run can be resumed. */
  ghost predicate QueuesAgain(steps: seq<Step>, k: nat, id: string)
    requires k < |steps| && steps[k].RecoverRun?
  {
    var phase := LastOf(steps[..k], Phase(id));
    || (phase.Some? && steps[phase.value].Claim?)
    || (steps[k].resumable && LastOf(steps[..k], Binding(id)).Some?)
  }

  ghost function StatusAt(steps: seq<Step>, k: nat, id: string): Status
    requires k < |steps| && Writes(steps[k], Phase(id))
  {
    match steps[k]
    case InsertRun(_, _, _, _, skipped) => if skipped then Skipped else Pending
    case Claim(_, _, _, _) => Claimed
    case MarkRunning(_, _, _, _) => Running
    case Finish(_, _, _, outcome, _, _) => outcome
    case RecoverRun(_, _, _) => if QueuesAgain(steps, k, id) then Pending else Failed
    case _ => Pending
  }

  ghost function StatusOf(steps: seq<Step>, id: string): Option<Status> {
    var k := LastOf(steps, Phase(id));
    if k.None? then None else Some(StatusAt(steps, k.value, id))
  }

  ghost function RunIdOf(steps: seq<Step>, id: string): Option<string> {
    var k := LastOf(steps, Binding(id));
    if k.None? then None
    else match steps[k.value]
      case Bind(_, _, _, agentRun) => Some(agentRun)
      case Finish(_, _, _, _, runId, _) => runId
      case _ => None
  }

  ghost function ErrorAt(steps: seq<Step>, k: nat, id: string): Option<string>
    requires k < |steps| && Writes(steps[k], Verdict(id))
  {
    match steps[k]
    case InsertRun(_, _, _, _, skipped) => if skipped then Some("AUTOMATION_CATCH_UP_SKIPPED") else None
    case Finish(_, _, _, _, _, error) => error
    case RecoverRun(_, _, _) => if QueuesAgain(steps, k, id) then None else Some("AUTOMATION_INTERRUPTED_BY_RESTART")
    case _ => None
  }

  ghost function ErrorOf(steps: seq<Step>, id: string): Option<string> {
    var k := LastOf(steps, Verdict(id));
    if k.None? then None else ErrorAt(steps, k.value, id)
  }

  /** While a run is claimed or running: claimant and time of the last claim, expiry of the last step that set one. */
  ghost predicate LeaseOf(steps: seq<Step>, id: string, lease: Lease) {
    var claim, expiry := LastOf(steps, Claiming(id)), LastOf(steps, Expiry(id));
    && claim.Some? && expiry.Some?
    && lease == Lease(steps[claim.value].at, steps[claim.value].owner, steps[expiry.value].expiresAt)
  }

  ghost predicate RunFromHistory(steps: seq<Step>, id: string, run: Run) {
    var k := LastOf(steps, Insertion(id));
    && k.Some? && run.jobId == steps[k.value].job && run.scheduledFor == steps[k.value].scheduledFor
    && run.requestKey == steps[k.value].requestKey
    && StatusOf(steps, id) == Some(run.status)
    && run.runId == RunIdOf(steps, id) && run.errorCode == ErrorOf(steps, id)
    && (run.lease.Some? <==> Live(run.status))
    && (run.lease.Some? ==> LeaseOf(steps, id, run.lease.value))
    && run.attempt == Claims(steps, id)
  }

  lemma PrefixSame(front: seq<Step>, step: Step, k: nat)
    requires k <= |front|
    ensures (front + [step])[..k] == front[..k] && front[..|front|] == front
    ensures k < |front| ==> (front + [step])[k] == front[k]
  {
  }

  lemma QueuesAgainPrefix(front: seq<Step>, step: Step, k: nat, id: string)
    requires k < |front| && front[k].RecoverRun?
    ensures (front + [step])[k] == front[k] && QueuesAgain(front + [step], k, id) == QueuesAgain(front, k, id)
  {
    hide LastOf;
    PrefixSame(front, step, k);
    var phase := LastOf(front[..k], Phase(id));
    assert phase.Some? ==> (front + [step])[phase.value] == front[phase.value];
  }

  lemma PrefixAt(front: seq<Step>, step: Step, k: nat, id: string)
    requires k < |front|
    ensures (front + [step])[k] == front[k]
    ensures Writes(front[k], Phase(id)) ==> StatusAt(front + [step], k, id) == StatusAt(front, k, id)
    ensures Writes(front[k], Verdict(id)) ==> ErrorAt(front + [step], k, id) == ErrorAt(front, k, id)
  {
    hide QueuesAgain;
    if front[k].RecoverRun? {
      QueuesAgainPrefix(front, step, k, id);
    }
  }

  lemma StatusSnoc(front: seq<Step>, step: Step, id: string)
    ensures StatusOf(front + [step], id)
         == if Enabled(Execute(EMPTY, front), step) && Writes(step, Phase(id))
            then Some(StatusAt(front + [step], |front|, id)) else StatusOf(front, id)
  {
    hide LastOf, Enabled, Execute, StatusAt, ErrorAt, Writes;
    LastSnoc(front, step, Phase(id));
    var k := LastOf(front, Phase(id));
    if k.Some? {
      PrefixAt(front, step, k.value, id);
    }
  }

  lemma RunIdSnoc(front: seq<Step>, step: Step, id: string)
    ensures RunIdOf(front + [step], id)
         == if Enabled(Execute(EMPTY, front), step) && Writes(step, Binding(id))
            then (if step.Bind? then Some(step.agentRun) else step.runId) else RunIdOf(front, id)
  {
    hide LastOf, Enabled, Execute;
    LastSnoc(front, step, Binding(id));
    var k := LastOf(front, Binding(id));
    if k.Some? {
      PrefixSame(front, step, k.value);
    }
  }

  lemma ErrorSnoc(front: seq<Step>, step: Step, id: string)
    ensures ErrorOf(front + [step], id)
         == if Enabled(Execute(EMPTY, front), step) && Writes(step, Verdict(id))
            then ErrorAt(front + [step], |front|, id) else ErrorOf(front, id)
  {
    hide LastOf, Enabled, Execute, StatusAt, ErrorAt, Writes;
    LastSnoc(front, step, Verdict(id));
    var k := LastOf(front, Verdict(id));
    if k.Some? {
      PrefixAt(front, step, k.value, id);
    }
  }

  /** A recovery decides by what the row says. */
  lemma QueuesAgainByRow(front: seq<Step>, step: Step, id: string)
    requires step.RecoverRun?
    ensures QueuesAgain(front + [step], |front|, id)
       <==> StatusOf(front, id) == Some(Claimed) || (step.resumable && RunIdOf(front, id).Some?)
  {
    hide LastOf, Execute, QueuesAgain;
    LastIsLast(front, Phase(id));
    PrefixSame(front, step, |front|);
    var phase := LastOf(front, Phase(id));
    if phase.Some? {
      PrefixSame(front, step, phase.value);
      StatusTellsClaim(front, phase.value, id);
    }
    assert QueuesAgain(front + [step], |front|, id)
        == ((phase.Some? && (front + [step])[phase.value].Claim?) || (step.resumable && LastOf(front, Binding(id)).Some?)) by {
      QueuesAgainUnfold(front + [step], |front|, id);
    }
  }

  lemma QueuesAgainUnfold(steps: seq<Step>, k: nat, id: string)
    requires k < |steps| && steps[k].RecoverRun?
    ensures QueuesAgain(steps, k, id)
       <==> || (LastOf(steps[..k], Phase(id)).Some? && steps[LastOf(steps[..k], Phase(id)).value].Claim?)
            || (steps[k].resumable && LastOf(steps[..k], Binding(id)).Some?)
  {
  }

  lemma StatusTellsClaim(steps: seq<Step>, k: nat, id: string)
    requires k < |steps| && Writes(steps[k], Phase(id)) && Enabled(Before(steps, k), steps[k])
    ensures StatusAt(steps, k, id) == Claimed <==> steps[k].Claim?
  {
    hide QueuesAgain, Execute;
  }

  lemma LeaseSnoc(front: seq<Step>, step: Step, id: string, before: Option<Lease>, after: Option<Lease>)
    requires before.Some? ==> LeaseOf(front, id, before.value)
    requires var effective := Enabled(Execute(EMPTY, front), step);
             after.Some? ==>
               if effective && Writes(step, Claiming(id)) then after.value == Lease(step.at, step.owner, step.expiresAt)
               else if effective && Writes(step, Expiry(id)) then before.Some? && after.value == before.value.(expiresAt := step.expiresAt)
               else after == before
    ensures after.Some? ==> LeaseOf(front + [step], id, after.value)
  {
    hide LastOf, Enabled, Execute;
    LastSnoc(front, step, Claiming(id));
    LastSnoc(front, step, Expiry(id));
    var claim, expiry := LastOf(front, Claiming(id)), LastOf(front, Expiry(id));
    if claim.Some? {
      PrefixSame(front, step, claim.value);
    }
    if expiry.Some? {
      PrefixSame(front, step, expiry.value);
    }
  }

  lemma ClaimsSnoc(front: seq<Step>, step: Step, id: string)
    ensures Claims(front + [step], id) == Claims(front, id) + if IsClaim(Execute(EMPTY, front), step, id) then 1 else 0
  {
    assert (front + [step])[..|front + [step]| - 1] == front;
  }

  /** A row that did not exist before: the step inserted it, and nothing addressed it earlier. */
  lemma FreshFromHistory(front: seq<Step>, step: Step, id: string)
    requires id !in Execute(EMPTY, front).runs && LastOf(front, Insertion(id)).None?
    requires LastOf(front, Binding(id)).None? && Claims(front, id) == 0
    requires Enabled(Execute(EMPTY, front), step) && step.InsertRun? && step.id == id
    ensures RunFromHistory(front + [step], id, Apply(Execute(EMPTY, front), step).runs[id])
  {
    hide Execute, LastOf, StatusOf, RunIdOf, ErrorOf, LeaseOf, Claims;
    var s := Execute(EMPTY, front);
    LastSnoc(front, step, Insertion(id));
    StatusSnoc(front, step, id);
    RunIdSnoc(front, step, id);
    ErrorSnoc(front, step, id);
    ClaimsSnoc(front, step, id);
    assert RunIdOf(front, id).None? by { NoBinding(front, id); }
    assert Apply(s, step).runs[id] == FreshRun(step.job, step.scheduledFor, step.requestKey, step.skipped);
  }

  lemma NoBinding(steps: seq<Step>, id: string)
    requires LastOf(steps, Binding(id)).None?
    ensures RunIdOf(steps, id).None?
  {
  }

  lemma AbsentStep(s: State, step: Step, id: string)
    requires id !in s.runs
    ensures Enabled(s, step) && OnRun(step) ==> step.id != id
    ensures id in Apply(s, step).runs ==> Enabled(s, step) && step.InsertRun? && step.id == id
  {
  }

  /** What a step leaves alone comes from the same step as before. */
  lemma UntouchedFromHistory(front: seq<Step>, step: Step, id: string, run: Run)
    requires RunFromHistory(front, id, run)
    requires !(Enabled(Execute(EMPTY, front), step) && (OnRun(step) || step.InsertRun?) && step.id == id)
    ensures RunFromHistory(front + [step], id, run)
  {
    hide Execute, LastOf, StatusOf, RunIdOf, ErrorOf, LeaseOf, Claims, Enabled;
    LastSnoc(front, step, Insertion(id));
    StatusSnoc(front, step, id);
    RunIdSnoc(front, step, id);
    ErrorSnoc(front, step, id);
    ClaimsSnoc(front, step, id);
    LeaseSnoc(front, step, id, run.lease, run.lease);
    var k := LastOf(front, Insertion(id));
    PrefixSame(front, step, k.value);
  }

  ghost predicate Addresses(front: seq<Step>, step: Step, id: string, run: Run) {
    && OnRun(step) && step.id == id && Enabled(Execute(EMPTY, front), step)
    && (run.lease.Some? || step.Claim?)
  }

  lemma StatusUpdated(front: seq<Step>, step: Step, id: string, run: Run)
    requires Addresses(front, step, id, run) && StatusOf(front, id) == Some(run.status) && RunIdOf(front, id) == run.runId
    ensures StatusOf(front + [step], id) == Some(Updated(run, step).status)
  {
    hide Enabled, Execute, StatusOf, RunIdOf, QueuesAgain;
    StatusSnoc(front, step, id);
    if step.RecoverRun? {
      QueuesAgainByRow(front, step, id);
    }
  }

  lemma RunIdUpdated(front: seq<Step>, step: Step, id: string, run: Run)
    requires Addresses(front, step, id, run) && RunIdOf(front, id) == run.runId
    ensures RunIdOf(front + [step], id) == Updated(run, step).runId
  {
    hide Enabled, Execute, RunIdOf;
    RunIdSnoc(front, step, id);
  }

  lemma ErrorUpdated(front: seq<Step>, step: Step, id: string, run: Run)
    requires Addresses(front, step, id, run) && StatusOf(front, id) == Some(run.status) && RunIdOf(front, id) == run.runId
    requires ErrorOf(front, id) == run.errorCode
    ensures ErrorOf(front + [step], id) == Updated(run, step).errorCode
  {
    hide Enabled, Execute, StatusOf, RunIdOf, ErrorOf, QueuesAgain;
    ErrorSnoc(front, step, id);
    if step.RecoverRun? {
      QueuesAgainByRow(front, step, id);
    }
  }

  lemma LeaseUpdated(front: seq<Step>, step: Step, id: string, run: Run)
    requires Addresses(front, step, id, run) && (run.lease.Some? ==> LeaseOf(front, id, run.lease.value))
    ensures var lease := Updated(run, step).lease; lease.Some? ==> LeaseOf(front + [step], id, lease.value)
  {
    hide Enabled, Execute, LeaseOf;
    LeaseSnoc(front, step, id, run.lease, Updated(run, step).lease);
  }

  lemma InsertionStays(front: seq<Step>, step: Step, id: string)
    requires !step.InsertRun? && LastOf(front, Insertion(id)).Some?
    ensures var k := LastOf(front, Insertion(id));
            LastOf(front + [step], Insertion(id)) == k && (front + [step])[k.value] == front[k.value]
  {
    LastSnoc(front, step, Insertion(id));
  }

  /** An effective step on the row writes its columns and leaves the others. */
  lemma UpdatedFromHistory(front: seq<Step>, step: Step, id: string, run: Run)
    requires RunFromHistory(front, id, run) && Addresses(front, step, id, run) && RunOk(Updated(run, step))
    ensures RunFromHistory(front + [step], id, Updated(run, step))
  {
    assert Updated(run, step).lease.Some? <==> Live(Updated(run, step).status);
    assert Updated(run, step).attempt == run.attempt + if step.Claim? then 1 else 0;
    UpdateKeepsIdentity(run, step);
    hide RunOk, Enabled, Execute, LastOf, StatusOf, RunIdOf, ErrorOf, LeaseOf, Claims, Updated, Live;
    StatusUpdated(front, step, id, run);
    RunIdUpdated(front, step, id, run);
    ErrorUpdated(front, step, id, run);
    LeaseUpdated(front, step, id, run);
    ClaimsSnoc(front, step, id);
    InsertionStays(front, step, id);
  }

  /** Over every history, the row of a run is what the last writers of its columns wrote. */
  lemma {:induction false} RunsFromHistory(steps: seq<Step>, id: string)
    ensures var s := Execute(EMPTY, steps);
            && (id in s.runs <==> LastOf(steps, Insertion(id)).Some?)
            && (id in s.runs ==> RunFromHistory(steps, id, s.runs[id]))
            && (id !in s.runs ==> LastOf(steps, Binding(id)).None? && Claims(steps, id) == 0 && LastOf(steps, Phase(id)).None?)
  {
    if steps != [] {
      var front, step := steps[..|steps| - 1], steps[|steps| - 1];
      RunsFromHistory(front, id);
      InvAlways(EMPTY, front);
      RunHistoryStep(front, step, id);
      assert steps == front + [step];
    }
  }

  lemma RunHistoryStep(front: seq<Step>, step: Step, id: string)
    requires var s := Execute(EMPTY, front);
             && Inv(s)
             && (id in s.runs <==> LastOf(front, Insertion(id)).Some?)
             && (id in s.runs ==> RunFromHistory(front, id, s.runs[id]))
             && (id !in s.runs ==> LastOf(front, Binding(id)).None? && Claims(front, id) == 0 && LastOf(front, Phase(id)).None?)
    ensures var s, steps := Execute(EMPTY, front + [step]), front + [step];
            && (id in s.runs <==> LastOf(steps, Insertion(id)).Some?)
            && (id in s.runs ==> RunFromHistory(steps, id, s.runs[id]))
            && (id !in s.runs ==> LastOf(steps, Binding(id)).None? && Claims(steps, id) == 0 && LastOf(steps, Phase(id)).None?)
  {
    var s := Execute(EMPTY, front);
    ExecuteSnoc(EMPTY, front, step);
    LastSnoc(front, step, Insertion(id));
    if id in s.runs {
      assert RunOk(s.runs[id]);
      RowStep(s, step, id);
      hide Execute, LastOf, RunFromHistory, Inv, RunOk;
      if Enabled(s, step) && (OnRun(step) || step.InsertRun?) && step.id == id {
        InsertIsNew(s, step, id);
        UpdateKeepsRow(s.runs[id], step, s);
        UpdatedFromHistory(front, step, id, s.runs[id]);
        UpdateApplies(s, step, id);
      } else {
        UntouchedFromHistory(front, step, id, s.runs[id]);
        OtherRowsStay(s, step, id);
      }
    } else {
      AbsentStep(s, step, id);
      hide Execute, LastOf, RunFromHistory, Inv, Claims;
      if id in Apply(s, step).runs {
        FreshFromHistory(front, step, id);
      } else {
        if Enabled(s, step) && step.InsertRun? && step.id == id {
          InsertIsSeen(s, step, id);
        }
        LastSnoc(front, step, Binding(id));
        LastSnoc(front, step, Phase(id));
        ClaimsSnoc(front, step, id);
      }
    }
  }

  lemma InsertIsSeen(s: State, step: Step, id: string)
    requires Enabled(s, step) && step.InsertRun? && step.id == id
    ensures id in Apply(s, step).runs
  {
  }

  lemma InsertIsNew(s: State, step: Step, id: string)
    requires id in s.runs && Enabled(s, step) && (OnRun(step) || step.InsertRun?) && step.id == id
    ensures OnRun(step)
  {
  }

  lemma UpdateApplies(s: State, step: Step, id: string)
    requires id in s.runs && Enabled(s, step) && OnRun(step) && step.id == id
    requires s.runs[id].lease.Some? || step.Claim?
    ensures id in Apply(s, step).runs && Apply(s, step).runs[id] == Updated(s.runs[id], step)
  {
  }

  lemma OtherRowsStay(s: State, step: Step, id: string)
    requires id in s.runs && !(Enabled(s, step) && (OnRun(step) || step.InsertRun?) && step.id == id)
    ensures id in Apply(s, step).runs && Apply(s, step).runs[id] == s.runs[id]
  {
  }

  // ----- the columns of a job

  ghost predicate IsEdit(s: State, step: Step, job: string) {
    step.Configure? && step.job == job && Enabled(s, step)
  }

  /** How often the configuration of the job was replaced. */
  ghost function Edits(steps: seq<Step>, job: string): nat {
    Count(IsEdit, EMPTY, steps, job)
  }

  lemma EditsSnoc(front: seq<Step>, step: Step, job: string)
    ensures Edits(front + [step], job) == Edits(front, job) + if IsEdit(Execute(EMPTY, front), step, job) then 1 else 0
  {
    assert (front + [step])[..|front + [step]| - 1] == front;
  }

  ghost predicate ConfigFrom(steps: seq<Step>, job: string, row: Job) {
    var setUp := LastOf(steps, SetUp(job));
    setUp.Some? && row.enabled == steps[setUp.value].enabled && row.schedule == steps[setUp.value].schedule
  }

  ghost predicate CursorFrom(steps: seq<Step>, job: string, row: Job) {
    var cursor := LastOf(steps, Cursor(job));
    cursor.Some? && row.next == steps[cursor.value].next
  }

  ghost predicate JobFromHistory(steps: seq<Step>, job: string, row: Job) {
    ConfigFrom(steps, job, row) && CursorFrom(steps, job, row) && row.revision == 1 + Edits(steps, job)
  }

  /** What one step writes of these columns. */
  lemma JobStep(s: State, step: Step, job: string)
    ensures job in Apply(s, step).jobs <==> job in s.jobs || (Enabled(s, step) && Writes(step, Creation(job)))
    ensures Enabled(s, step) && Writes(step, Cursor(job)) && !step.CreateJob? ==> job in s.jobs
    ensures Enabled(s, step) && Writes(step, Creation(job)) ==> job !in s.jobs && Apply(s, step).jobs[job].revision == 1
    ensures job in s.jobs ==>
              Apply(s, step).jobs[job].revision == s.jobs[job].revision + if IsEdit(s, step, job) then 1 else 0
    ensures job in Apply(s, step).jobs ==>
              var row := Apply(s, step).jobs[job];
              && (if Enabled(s, step) && Writes(step, SetUp(job)) then row.enabled == step.enabled && row.schedule == step.schedule
                  else row.enabled == s.jobs[job].enabled && row.schedule == s.jobs[job].schedule)
              && row.next == if Enabled(s, step) && Writes(step, Cursor(job)) then step.next else s.jobs[job].next
  {
  }

  lemma CreationWrites(s: State, step: Step, job: string)
    ensures Writes(step, Creation(job)) ==> Writes(step, SetUp(job)) && Writes(step, Cursor(job)) && !IsEdit(s, step, job)
    ensures IsEdit(s, step, job) ==> job in s.jobs
  {
  }

  lemma ConfigStep(front: seq<Step>, step: Step, job: string, before: Job, after: Job)
    requires var effective := Enabled(Execute(EMPTY, front), step) && Writes(step, SetUp(job));
             if effective then after.enabled == step.enabled && after.schedule == step.schedule
             else ConfigFrom(front, job, before) && after.enabled == before.enabled && after.schedule == before.schedule
    ensures ConfigFrom(front + [step], job, after)
  {
    hide Execute, Enabled, LastOf;
    LastSnoc(front, step, SetUp(job));
    var k := LastOf(front, SetUp(job));
    assert k.Some? ==> (front + [step])[k.value] == front[k.value];
  }

  lemma CursorStep(front: seq<Step>, step: Step, job: string, before: Job, after: Job)
    requires var effective := Enabled(Execute(EMPTY, front), step) && Writes(step, Cursor(job));
             if effective then after.next == step.next else CursorFrom(front, job, before) && after.next == before.next
    ensures CursorFrom(front + [step], job, after)
  {
    hide Execute, Enabled, LastOf;
    LastSnoc(front, step, Cursor(job));
    var k := LastOf(front, Cursor(job));
    assert k.Some? ==> (front + [step])[k.value] == front[k.value];
  }

  lemma JobHistoryStep(front: seq<Step>, step: Step, job: string)
    requires var s := Execute(EMPTY, front);
             && (job in s.jobs <==> LastOf(front, Creation(job)).Some?)
             && (job in s.jobs ==> JobFromHistory(front, job, s.jobs[job]))
             && (job !in s.jobs ==> Edits(front, job) == 0)
    ensures var s, steps := Execute(EMPTY, front + [step]), front + [step];
            && (job in s.jobs <==> LastOf(steps, Creation(job)).Some?)
            && (job in s.jobs ==> JobFromHistory(steps, job, s.jobs[job]))
            && (job !in s.jobs ==> Edits(steps, job) == 0)
  {
    hide Execute, Apply, Enabled, LastOf, Writes, Edits, IsEdit, ConfigFrom, CursorFrom;
    var s := Execute(EMPTY, front);
    JobStep(s, step, job);
    CreationWrites(s, step, job);
    ExecuteSnoc(EMPTY, front, step);
    LastSnoc(front, step, Creation(job));
    EditsSnoc(front, step, job);
    var after := Apply(s, step);
    if job in after.jobs {
      var before := if job in s.jobs then s.jobs[job] else after.jobs[job];
      ConfigStep(front, step, job, before, after.jobs[job]);
      CursorStep(front, step, job, before, after.jobs[job]);
    }
  }

  /** Over every history, a job has the configuration and the cursor last written, and its revision counts its edits. */
  lemma {:induction false} JobsFromHistory(steps: seq<Step>, job: string)
    ensures var s := Execute(EMPTY, steps);
            && (job in s.jobs <==> LastOf(steps, Creation(job)).Some?)
            && (job in s.jobs ==> JobFromHistory(steps, job, s.jobs[job]))
            && (job !in s.jobs ==> Edits(steps, job) == 0)
  {
    if steps != [] {
      var front, step := steps[..|steps| - 1], steps[|steps| - 1];
      JobsFromHistory(front, job);
      JobHistoryStep(front, step, job);
      assert steps == front + [step];
    }
  }

  /** Of two edits based on the same revision at most one takes effect, whatever happens in between. */
  lemma EditSpendsRevision(s: State, edit: Step, steps: seq<Step>, other: Step)
    requires edit.Configure? && Enabled(s, edit)
    requires other.Configure? && other.job == edit.job && other.expectedRevision == edit.expectedRevision
    ensures !Enabled(Execute(Apply(s, edit), steps), other)
  {
    RevisionIsSpent(Apply(s, edit), steps, edit.job, edit.expectedRevision);
  }

  // ----- what takes effect

  /** An effective insertion has taken the occurrence or the request key. */
  ghost predicate Clashes(steps: seq<Step>, k: nat, job: string, t: int, key: Option<string>)
    requires k < |steps|
  {
    && steps[k].InsertRun? && Enabled(Before(steps, k), steps[k])
    && ((steps[k].job == job && steps[k].scheduledFor == t) || (key.Some? && steps[k].requestKey == key))
  }

  /** The owner made the last claim, and the last expiry written is not before `at`. */
  ghost predicate HeldInHistory(steps: seq<Step>, id: string, owner: string, at: int) {
    var claim, expiry := LastOf(steps, Claiming(id)), LastOf(steps, Expiry(id));
    claim.Some? && expiry.Some? && steps[claim.value].owner == owner && at <= steps[expiry.value].expiresAt
  }

  ghost predicate ClaimedNoLaterThan(steps: seq<Step>, id: string, expires: int) {
    var claim := LastOf(steps, Claiming(id));
    claim.Some? && steps[claim.value].at <= expires
  }

  /** Whether a step takes effect, from the history alone. */
  ghost predicate Admitted(steps: seq<Step>, step: Step) {
    match step
    case CreateJob(job, _, _, next, _) => LastOf(steps, Creation(job)).None? && Instant(next)
    case Configure(job, revision, _, _, next, _) =>
      LastOf(steps, Creation(job)).Some? && revision == 1 + Edits(steps, job) && Instant(next)
    case SetRuntime(job, next, last, _) => LastOf(steps, Creation(job)).Some? && Instant(next) && Instant(last)
    case AdvanceCursor(job, expected, next, last) =>
      var setUp, cursor := LastOf(steps, SetUp(job)), LastOf(steps, Cursor(job));
      && setUp.Some? && steps[setUp.value].enabled
      && cursor.Some? && steps[cursor.value].next == Some(expected) && Instant(next) && Instant(last)
    case InsertRun(id, job, t, key, _) =>
      && LastOf(steps, Creation(job)).Some? && t >= 0 && LastOf(steps, Insertion(id)).None?
      && forall k: nat :: k < |steps| ==> !Clashes(steps, k, job, t, key)
    case Claim(id, _, at, expires) => StatusOf(steps, id) == Some(Pending) && at <= expires
    case MarkRunning(id, owner, at, expires) =>
      StatusOf(steps, id) == Some(Claimed) && HeldInHistory(steps, id, owner, at) && ClaimedNoLaterThan(steps, id, expires)
    case Renew(id, owner, at, expires) =>
      && StatusOf(steps, id) in {Some(Claimed), Some(Running)}
      && HeldInHistory(steps, id, owner, at) && ClaimedNoLaterThan(steps, id, expires)
    case Bind(id, owner, at, _) =>
      StatusOf(steps, id) == Some(Running) && HeldInHistory(steps, id, owner, at) && LastOf(steps, Binding(id)).None?
    case Finish(id, owner, at, outcome, _, _) =>
      && StatusOf(steps, id) == Some(Running) && HeldInHistory(steps, id, owner, at)
      && outcome in {Succeeded, Failed, Cancelled}
    case RecoverRun(id, at, _) =>
      var expiry := LastOf(steps, Expiry(id));
      StatusOf(steps, id) in {Some(Claimed), Some(Running)} && expiry.Some? && steps[expiry.value].expiresAt <= at
  }

  lemma BindingTellsRunId(steps: seq<Step>, id: string)
    ensures RunIdOf(steps, id).Some? <==> LastOf(steps, Binding(id)).Some?
    ensures LastOf(steps, Phase(id)).None? ==> StatusOf(steps, id).None?
  {
  }

  lemma RunStepAdmitted(steps: seq<Step>, step: Step)
    requires OnRun(step)
    ensures Enabled(Execute(EMPTY, steps), step) <==> Admitted(steps, step)
  {
    RunsFromHistory(steps, step.id);
    BindingTellsRunId(steps, step.id);
    hide Execute, LastOf, StatusOf, RunIdOf, ErrorOf, Claims;
  }

  lemma JobStepAdmitted(steps: seq<Step>, step: Step)
    requires step.CreateJob? || step.Configure? || step.SetRuntime? || step.AdvanceCursor?
    ensures Enabled(Execute(EMPTY, steps), step) <==> Admitted(steps, step)
  {
    JobsFromHistory(steps, step.job);
    if LastOf(steps, Creation(step.job)).None? {
      NothingBeforeCreation(steps, step.job);
    }
    hide Execute, LastOf, Edits;
  }

  lemma {:induction false} NothingBeforeCreation(steps: seq<Step>, job: string)
    requires LastOf(steps, Creation(job)).None?
    ensures LastOf(steps, SetUp(job)).None? && LastOf(steps, Cursor(job)).None?
  {
    if steps != [] {
      var front, step := steps[..|steps| - 1], steps[|steps| - 1];
      NothingBeforeCreation(front, job);
      JobsFromHistory(front, job);
    }
  }

  /** The row of an effective insertion stays as inserted. */
  lemma InsertionKeepsRow(steps: seq<Step>, k: nat)
    requires k < |steps| && steps[k].InsertRun? && Enabled(Before(steps, k), steps[k])
    ensures var s := Execute(EMPTY, steps);
            && steps[k].id in s.runs && s.runs[steps[k].id].jobId == steps[k].job
            && s.runs[steps[k].id].scheduledFor == steps[k].scheduledFor && s.runs[steps[k].id].requestKey == steps[k].requestKey
  {
    var before, step := Before(steps, k), steps[k];
    assert step.id in Apply(before, step).runs;
    assert steps == steps[..k] + [step] + steps[k + 1..];
    ExecuteConcat(EMPTY, steps[..k] + [step], steps[k + 1..]);
    ExecuteSnoc(EMPTY, steps[..k], step);
    IdentityIsStable(Apply(before, step), steps[k + 1..], step.id);
  }

  /** A row in the way is an effective insertion in the way. */
  lemma ClashIff(steps: seq<Step>, job: string, t: int, key: Option<string>)
    ensures (exists k: nat :: k < |steps| && Clashes(steps, k, job, t, key))
       <==> SlotTaken(Execute(EMPTY, steps), job, t) || (key.Some? && KeyTaken(Execute(EMPTY, steps), key.value))
  {
    hide Execute, LastOf, Enabled;
    var s := Execute(EMPTY, steps);
    if k: nat :| k < |steps| && Clashes(steps, k, job, t, key) {
      InsertionKeepsRow(steps, k);
      assert s.runs[steps[k].id].jobId == steps[k].job;
    } else if id :| id in s.runs && ((s.runs[id].jobId == job && s.runs[id].scheduledFor == t) || (key.Some? && s.runs[id].requestKey == key)) {
      InsertionOf(steps, id);
      assert Clashes(steps, LastOf(steps, Insertion(id)).value, job, t, key);
    }
  }

  lemma InsertAdmitted(steps: seq<Step>, step: Step)
    requires step.InsertRun?
    ensures Enabled(Execute(EMPTY, steps), step) <==> Admitted(steps, step)
  {
    JobsFromHistory(steps, step.job);
    RunsFromHistory(steps, step.id);
    hide Execute, LastOf, RunFromHistory, JobFromHistory, SlotTaken, KeyTaken, Clashes;
    ClashIff(steps, step.job, step.scheduledFor, step.requestKey);
  }

  lemma InsertionOf(steps: seq<Step>, id: string)
    requires id in Execute(EMPTY, steps).runs
    ensures var k, s := LastOf(steps, Insertion(id)), Execute(EMPTY, steps);
            && k.Some? && steps[k.value].InsertRun? && Enabled(Before(steps, k.value), steps[k.value])
            && steps[k.value].job == s.runs[id].jobId && steps[k.value].scheduledFor == s.runs[id].scheduledFor
            && steps[k.value].requestKey == s.runs[id].requestKey
  {
    RunsFromHistory(steps, id);
    LastIsLast(steps, Insertion(id));
  }

  /** Over every history, a step takes effect if and only if the history admits it. */
  lemma EffectiveIffAdmitted(steps: seq<Step>, step: Step)
    ensures Enabled(Execute(EMPTY, steps), step) <==> Admitted(steps, step)
  {
    hide Execute, Enabled, Admitted;
    if OnRun(step) {
      RunStepAdmitted(steps, step);
    } else if step.InsertRun? {
      InsertAdmitted(steps, step);
    } else {
      JobStepAdmitted(steps, step);
    }
  }
}
