/**
 Leases over whole histories: an unexpired lease is honoured, a commit belongs to an owner that
 held the run without interruption since its own claim, and when that owner is the executor
 that started the work.
 */
module LedgerLeases {
  import opened Common
  import opened Schedule
  import opened Ledger
  import opened LedgerSafety
  import opened History

  ghost predicate Holds(s: State, id: string, owner: string) {
    id in s.runs && Live(s.runs[id].status) && s.runs[id].lease.Some? && s.runs[id].lease.value.owner == owner
  }

  predicate Targets(step: Step, id: string) {
    OnRun(step) && step.id == id
  }

  /** `Holds` with a lease that lasts to `until`, in attempt `attempt`. */
  ghost predicate HoldsUntil(s: State, id: string, owner: string, until: int, attempt: nat) {
    Holds(s, id, owner) && s.runs[id].lease.value.expiresAt >= until && s.runs[id].attempt == attempt
  }

  /** The row was closed by a commit of `owner` among `steps`, in attempt `attempt`. */
  ghost predicate CommittedBy(s: State, steps: seq<Step>, id: string, owner: string, attempt: nat) {
    && id in s.runs && Terminal(s.runs[id].status) && s.runs[id].attempt == attempt
    && exists i :: 0 <= i < |steps| && steps[i].Finish? && steps[i].id == id && steps[i].owner == owner
                   && steps[i].outcome == s.runs[id].status
  }

  /** Nothing in `steps` can end the lease of `owner` before `until`. */
  ghost predicate BeforeExpiry(steps: seq<Step>, id: string, owner: string, until: int) {
    forall i :: 0 <= i < |steps| && Targets(steps[i], id) ==>
      && steps[i].at < until
      && ((steps[i].MarkRunning? || steps[i].Renew?) && steps[i].owner == owner ==> steps[i].expiresAt >= until)
  }

  lemma LeaseStep(s: State, step: Step, id: string, owner: string, until: int, attempt: nat)
    requires Inv(s) && HoldsUntil(s, id, owner, until, attempt) && BeforeExpiry([step], id, owner, until)
    ensures HoldsUntil(Apply(s, step), id, owner, until, attempt)
            || CommittedBy(Apply(s, step), [step], id, owner, attempt)
  {
    assert [step][0] == step;
    RowStep(s, step, id);
  }

  lemma CommitStays(s: State, steps: seq<Step>, step: Step, id: string, owner: string, attempt: nat)
    requires Inv(s) && CommittedBy(s, steps, id, owner, attempt)
    ensures CommittedBy(Apply(s, step), steps + [step], id, owner, attempt)
  {
    RowStep(s, step, id);
    var i :| 0 <= i < |steps| && steps[i].Finish? && steps[i].id == id && steps[i].owner == owner
             && steps[i].outcome == s.runs[id].status;
    assert (steps + [step])[i] == steps[i];
  }

  /**
   Until a lease expires only its owner can move the run: at every later point before the
   expiry the owner still holds the same attempt, or has committed it.
   */
  lemma {:induction false} LeaseIsHonoured(s: State, steps: seq<Step>, id: string, owner: string, until: int, attempt: nat)
    requires Inv(s) && HoldsUntil(s, id, owner, until, attempt)
    requires BeforeExpiry(steps, id, owner, until)
    ensures HoldsUntil(Execute(s, steps), id, owner, until, attempt)
            || CommittedBy(Execute(s, steps), steps, id, owner, attempt)
  {
    if steps != [] {
      var front, step := steps[..|steps| - 1], steps[|steps| - 1];
      assert steps == front + [step];
      LeaseIsHonoured(s, front, id, owner, until, attempt);
      InvAlways(s, front);
      var mid := Execute(s, front);
      if HoldsUntil(mid, id, owner, until, attempt) {
        assert BeforeExpiry([step], id, owner, until);
        LeaseStep(mid, step, id, owner, until, attempt);
        if CommittedBy(Apply(mid, step), [step], id, owner, attempt) {
          assert steps[|steps| - 1] == [step][0];
        }
      } else {
        CommitStays(mid, front, step, id, owner, attempt);
      }
    }
  }

  /**
   At every instant somebody can act on a held run: its owner up to and including the expiry, and
   recovery from the expiry on. At the expiry itself both can, and the first one wins.
   */
  lemma LeaseBoundary(s: State, id: string, at: int, resumable: bool)
    requires Inv(s) && id in s.runs && Live(s.runs[id].status)
    ensures var lease := s.runs[id].lease.value;
            && (Enabled(s, Renew(id, lease.owner, at, lease.expiresAt)) <==> at <= lease.expiresAt)
            && (Enabled(s, RecoverRun(id, at, resumable)) <==> lease.expiresAt <= at)
            && (at == lease.expiresAt ==>
                  && !Enabled(Apply(s, RecoverRun(id, at, resumable)), Renew(id, lease.owner, at, lease.expiresAt))
                  && !Enabled(Apply(s, Renew(id, lease.owner, at, at + 1)), RecoverRun(id, at, resumable)))
  {
    RowStep(s, RecoverRun(id, at, resumable), id);
    var renew := Renew(id, s.runs[id].lease.value.owner, at, at + 1);
    RowStep(s, renew, id);
  }

  /** While one owner holds a run, effective steps on it are the owner's own or an expiry. */
  lemma OthersAreLockedOut(s: State, step: Step, id: string, owner: string)
    requires Holds(s, id, owner) && Targets(step, id) && Enabled(s, step)
    ensures !step.Claim?
    ensures !step.RecoverRun? ==> step.owner == owner
  {
  }

  /** `i` is the effective claim since which `owner` has held the run without interruption. */
  ghost predicate HeldSince(s: State, steps: seq<Step>, id: string, owner: string, i: nat) {
    && i < |steps| && IsClaim(Execute(s, steps[..i]), steps[i], id) && steps[i].owner == owner
    && forall k :: i < k <= |steps| ==>
         && Holds(Execute(s, steps[..k]), id, owner)
         && Execute(s, steps[..k]).runs[id].attempt == Attempts(Execute(s, steps[..i]), id) + 1
  }

  /** A holder held the same attempt before, or this very step is its claim. */
  lemma HolderStep(s: State, step: Step, id: string, owner: string)
    requires Inv(s) && Holds(Apply(s, step), id, owner)
    ensures || (Holds(s, id, owner) && Attempts(Apply(s, step), id) == Attempts(s, id))
            || (IsClaim(s, step, id) && step.owner == owner && Attempts(Apply(s, step), id) == Attempts(s, id) + 1)
  {
    if id in s.runs {
      RowStep(s, step, id);
    }
  }

  lemma HeldLonger(s: State, steps: seq<Step>, step: Step, id: string, owner: string, i: nat)
    requires HeldSince(s, steps, id, owner, i)
    requires Holds(Execute(s, steps + [step]), id, owner)
    requires Attempts(Execute(s, steps + [step]), id) == Attempts(Execute(s, steps), id)
    ensures HeldSince(s, steps + [step], id, owner, i)
  {
    hide Execute, Enabled;
    var longer := steps + [step];
    assert forall k :: 0 <= k <= |steps| ==> longer[..k] == steps[..k];
    assert longer[..|longer|] == longer && steps[..|steps|] == steps;
  }

  lemma JustClaimed(s: State, steps: seq<Step>, step: Step, id: string, owner: string)
    requires IsClaim(Execute(s, steps), step, id) && step.owner == owner
    requires Holds(Execute(s, steps + [step]), id, owner)
    requires Attempts(Execute(s, steps + [step]), id) == Attempts(Execute(s, steps), id) + 1
    ensures HeldSince(s, steps + [step], id, owner, |steps|)
  {
    hide Execute, Enabled;
    var longer := steps + [step];
    assert longer[..|steps|] == steps && longer[..|longer|] == longer;
  }

  lemma {:induction false} HolderClaimed(s: State, steps: seq<Step>, id: string, owner: string) returns (i: nat)
    requires Inv(s) && (id in s.runs ==> !Live(s.runs[id].status))
    requires Holds(Execute(s, steps), id, owner)
    ensures HeldSince(s, steps, id, owner, i)
  {
    ExecuteNone(s);
    assert steps != [];
    var front, step := steps[..|steps| - 1], steps[|steps| - 1];
    hide Execute, Apply, Inv, Holds, IsClaim, HeldSince, Attempts;
    assert steps == front + [step];
    ExecuteSnoc(s, front, step);
    InvAlways(s, front);
    HolderStep(Execute(s, front), step, id, owner);
    if Holds(Execute(s, front), id, owner) && Attempts(Execute(s, steps), id) == Attempts(Execute(s, front), id) {
      i := HolderClaimed(s, front, id, owner);
      HeldLonger(s, front, step, id, owner, i);
    } else {
      i := |front|;
      JustClaimed(s, front, step, id, owner);
    }
  }

  /**
   Fencing over whole histories. Whoever commits a run claimed it and has held it ever since:
   between that claim and the commit every effective step on the run was the committer's own,
   with no claim, no recovery and no other owner in between. The last of them that set an expiry
   set one that has not passed.
   */
  lemma CommitterHeldTheLease(steps: seq<Step>, finish: Step) returns (i: nat)
    requires finish.Finish? && Enabled(Execute(EMPTY, steps), finish)
    ensures HeldSince(EMPTY, steps, finish.id, finish.owner, i)
    ensures forall k :: i < k < |steps| && Targets(steps[k], finish.id) && Enabled(Execute(EMPTY, steps[..k]), steps[k]) ==>
              !steps[k].Claim? && !steps[k].RecoverRun? && steps[k].owner == finish.owner
    ensures var k := LastOf(steps, Expiry(finish.id));
            k.Some? && i <= k.value && steps[k.value].owner == finish.owner && finish.at <= steps[k.value].expiresAt
  {
    var id, owner := finish.id, finish.owner;
    i := HolderClaimed(EMPTY, steps, id, owner);
    forall k | i < k < |steps| && Targets(steps[k], id) && Enabled(Execute(EMPTY, steps[..k]), steps[k])
      ensures !steps[k].Claim? && !steps[k].RecoverRun? && steps[k].owner == owner
    {
      var before := Execute(EMPTY, steps[..k]);
      OthersAreLockedOut(before, steps[k], id, owner);
      assert steps[..k + 1] == steps[..k] + [steps[k]];
      ExecuteSnoc(EMPTY, steps[..k], steps[k]);
      assert Holds(Apply(before, steps[k]), id, owner);
    }
    ExpiryIsOwn(steps, finish, i);
  }

  lemma ExpiryIsOwn(steps: seq<Step>, finish: Step, i: nat)
    requires finish.Finish? && Enabled(Execute(EMPTY, steps), finish) && i < |steps|
    requires IsClaim(Execute(EMPTY, steps[..i]), steps[i], finish.id) && steps[i].owner == finish.owner
    requires forall k :: i < k < |steps| && Targets(steps[k], finish.id) && Enabled(Execute(EMPTY, steps[..k]), steps[k]) ==>
               !steps[k].Claim? && !steps[k].RecoverRun? && steps[k].owner == finish.owner
    ensures var k := LastOf(steps, Expiry(finish.id));
            k.Some? && i <= k.value && steps[k.value].owner == finish.owner && finish.at <= steps[k.value].expiresAt
  {
    hide Execute, LastOf, Enabled, Admitted;
    ActorIsUnexpired(steps, finish);
    LastIsLast(steps, Expiry(finish.id));
    var k := LastOf(steps, Expiry(finish.id));
    assert Writes(steps[i], Expiry(finish.id));
    assert i < k.value ==> Targets(steps[k.value], finish.id);
  }

  /** Whoever starts, renews, binds or commits a run does so no later than the last expiry set for it. */
  lemma ActorIsUnexpired(steps: seq<Step>, act: Step)
    requires act.MarkRunning? || act.Renew? || act.Bind? || act.Finish?
    requires Enabled(Execute(EMPTY, steps), act)
    ensures var claim, expiry := LastOf(steps, Claiming(act.id)), LastOf(steps, Expiry(act.id));
            && claim.Some? && steps[claim.value].owner == act.owner
            && expiry.Some? && act.at <= steps[expiry.value].expiresAt
  {
    EffectiveIffAdmitted(steps, act);
  }

  /** An executor claimed the run at step `c`; later the same owner can commit it. */
  ghost predicate CommitAfterClaim(steps: seq<Step>, c: nat, finish: Step) {
    && c < |steps| && finish.Finish?
    && IsClaim(Execute(EMPTY, steps[..c]), steps[c], finish.id) && steps[c].owner == finish.owner
    && Enabled(Execute(EMPTY, steps), finish)
  }

  /** The owner claims the same run again at step `k`. */
  ghost predicate Reclaims(steps: seq<Step>, k: nat, finish: Step)
    requires finish.Finish? && k < |steps|
  {
    IsClaim(Execute(EMPTY, steps[..k]), steps[k], finish.id) && steps[k].owner == finish.owner
  }

  /** Attempts grow at an effective claim and never shrink. */
  lemma ClaimRaisesAttempt(steps: seq<Step>, k: nat, id: string)
    requires k < |steps| && IsClaim(Execute(EMPTY, steps[..k]), steps[k], id)
    ensures Attempts(Execute(EMPTY, steps[..k + 1]), id) == Attempts(Execute(EMPTY, steps[..k]), id) + 1
  {
    assert steps[..k + 1] == steps[..k] + [steps[k]];
    ExecuteSnoc(EMPTY, steps[..k], steps[k]);
  }

  lemma AttemptsGrow(steps: seq<Step>, j: nat, k: nat, id: string)
    requires j <= k <= |steps|
    ensures Attempts(Execute(EMPTY, steps[..j]), id) <= Attempts(Execute(EMPTY, steps[..k]), id)
  {
    var s := Execute(EMPTY, steps[..j]);
    assert steps[..k] == steps[..j] + steps[j..k];
    ExecuteConcat(EMPTY, steps[..j], steps[j..k]);
    if id in s.runs {
      IdentityIsStable(s, steps[j..k], id);
    }
  }

  lemma NoReclaimKeepsAttempt(steps: seq<Step>, c: nat, finish: Step)
    requires CommitAfterClaim(steps, c, finish)
    requires forall k :: c < k < |steps| ==> !Reclaims(steps, k, finish)
    ensures Attempts(Execute(EMPTY, steps), finish.id) == Attempts(Execute(EMPTY, steps[..c + 1]), finish.id)
  {
    var i := CommitterHeldTheLease(steps, finish);
    assert Reclaims(steps, i, finish);
    ClaimRaisesAttempt(steps, c, finish.id);
    assert steps[..|steps|] == steps;
  }

  lemma LaterClaimRaisesAttempt(steps: seq<Step>, c: nat, k: nat, id: string)
    requires c < k < |steps| && IsClaim(Execute(EMPTY, steps[..k]), steps[k], id)
    ensures Attempts(Execute(EMPTY, steps), id) > Attempts(Execute(EMPTY, steps[..c + 1]), id)
  {
    AttemptsGrow(steps, c + 1, k, id);
    ClaimRaisesAttempt(steps, k, id);
    AttemptsGrow(steps, k + 1, |steps|, id);
    assert steps[..|steps|] == steps;
  }

  /**
   The ledger fences by owner and not by attempt. A commit lands in the attempt its executor
   claimed if and only if the same owner has not claimed the run again in between.
   */
  lemma CommitIsOwnAttemptIff(steps: seq<Step>, c: nat, finish: Step)
    requires CommitAfterClaim(steps, c, finish)
    ensures Attempts(Execute(EMPTY, steps), finish.id) == Attempts(Execute(EMPTY, steps[..c + 1]), finish.id)
       <==> forall k :: c < k < |steps| ==> !Reclaims(steps, k, finish)
  {
    if k :| c < k < |steps| && Reclaims(steps, k, finish) {
      LaterClaimRaisesAttempt(steps, c, k, finish.id);
    } else {
      NoReclaimKeepsAttempt(steps, c, finish);
    }
  }

  /** The effect of a step on a ledger with one job and one run. */
  lemma SingleRunStep(job: Job, before: Run, step: Step)
    requires before.jobId == "job" && Targets(step, "run")
    requires Enabled(State(map["job" := job], map["run" := before]), step)
    requires before.lease.Some? || step.Claim?
    requires !Terminal(Updated(before, step).status)
    ensures Apply(State(map["job" := job], map["run" := before]), step)
         == State(map["job" := job], map["run" := Updated(before, step)])
  {
    assert map["run" := before]["run" := Updated(before, step)] == map["run" := Updated(before, step)];
  }

  lemma ReadyLedger(create: Step, insert: Step)
    requires create == CreateJob("job", true, At(1), Some(1), 0) && insert == InsertRun("run", "job", 0, None, false)
    ensures Execute(EMPTY, [create, insert])
         == State(map["job" := Job(true, At(1), 1, Some(1), None, 0)], map["run" := FreshRun("job", 0, None, false)])
  {
    ExecuteSnoc(EMPTY, [], create);
    assert [] + [create] == [create];
    ExecuteSnoc(EMPTY, [create], insert);
    assert [create] + [insert] == [create, insert];
  }

  lemma ExtendHistory(steps: seq<Step>, job: Job, before: Run, step: Step, after: Run) returns (longer: seq<Step>)
    requires Execute(EMPTY, steps) == State(map["job" := job], map["run" := before])
    requires before.jobId == "job" && Targets(step, "run")
    requires Enabled(State(map["job" := job], map["run" := before]), step)
    requires before.lease.Some? || step.Claim?
    requires after == Updated(before, step) && !Terminal(after.status)
    ensures longer == steps + [step]
    ensures Execute(EMPTY, longer) == State(map["job" := job], map["run" := after])
  {
    longer := steps + [step];
    ExecuteSnoc(EMPTY, steps, step);
    SingleRunStep(job, before, step);
  }

  lemma ReclaimedHistory(claimed: seq<Step>, job: Job, run: Run) returns (steps: seq<Step>)
    requires run == Run("job", 0, None, Some(Lease(0, "host", 1000)), None, Claimed, 1, None)
    requires Execute(EMPTY, claimed) == State(map["job" := job], map["run" := run])
    ensures claimed <= steps
    ensures Execute(EMPTY, steps)
         == State(map["job" := job], map["run" := Run("job", 0, None, Some(Lease(2000, "host", 3500)), None, Running, 2, None)])
  {
    var requeued := run.(status := Pending, lease := None);
    var reclaimed := run.(lease := Some(Lease(2000, "host", 3000)), attempt := 2);
    var started := reclaimed.(status := Running, lease := Some(Lease(2000, "host", 3500)));
    steps := ExtendHistory(claimed, job, run, RecoverRun("run", 1000, false), requeued);
    steps := ExtendHistory(steps, job, requeued, Claim("run", "host", 2000, 3000), reclaimed);
    steps := ExtendHistory(steps, job, reclaimed, MarkRunning("run", "host", 2500, 3500), started);
  }

  lemma ClaimedThenCommits(ready: seq<Step>, claim: Step, steps: seq<Step>, finish: Step)
    requires finish.Finish? && claim.Claim? && claim.owner == finish.owner && ready + [claim] <= steps
    requires IsClaim(Execute(EMPTY, ready), claim, finish.id) && Enabled(Execute(EMPTY, steps), finish)
    ensures CommitAfterClaim(steps, |ready|, finish) && steps[..|ready| + 1] == ready + [claim]
  {
    hide Execute, Enabled;
    assert steps[|ready|] == claim && steps[..|ready|] == ready;
  }

  /** An owner id used by two executors lets the first one, long expired, commit the second one's attempt. */
  lemma SharedOwnerDefeatsFencing() returns (steps: seq<Step>, c: nat, finish: Step)
    ensures CommitAfterClaim(steps, c, finish)
    ensures Attempts(Execute(EMPTY, steps[..c + 1]), finish.id) == 1
    ensures Attempts(Execute(EMPTY, steps), finish.id) == 2
  {
    hide Execute, Apply, CommitAfterClaim;
    var create, insert := CreateJob("job", true, At(1), Some(1), 0), InsertRun("run", "job", 0, None, false);
    ReadyLedger(create, insert);
    var ready := [create, insert];
    var job := Job(true, At(1), 1, Some(1), None, 0);
    var claim := Claim("run", "host", 0, 1000);
    var run := Run("job", 0, None, Some(Lease(0, "host", 1000)), None, Claimed, 1, None);
    var claimed := ExtendHistory(ready, job, FreshRun("job", 0, None, false), claim, run);
    steps := ReclaimedHistory(claimed, job, run);
    c, finish := 2, Finish("run", "host", 2600, Succeeded, None, None);
    ClaimedThenCommits(ready, claim, steps, finish);
  }
}
