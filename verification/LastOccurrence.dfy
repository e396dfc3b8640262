/**
 The `last` column of a job, over every history in which nobody overwrites its runtime columns by
 hand: what it is, the run behind it, and when skipping moves it back.
 */
module LastOccurrence {
  import opened Common
  import opened Schedule
  import opened CatchUp
  import Coverage
  import opened Ledger
  import opened LedgerSafety
  import opened LedgerAccounting

  function RunsOf(s: State, job: string, status: Status): set<string> {
    set id | id in s.runs && s.runs[id].jobId == job && s.runs[id].status == status
  }

  /** The step writes `last` outright: a startup plan that skips. */
  ghost predicate Skips(s: State, step: Step, job: string) {
    step.AdvanceCursor? && step.job == job && Enabled(s, step) && step.last.Some?
  }

  /** The step commits a run of the job that counts as its last occurrence. */
  ghost predicate SettlesRun(s: State, step: Step, job: string) {
    Settles(s, step, job, Succeeded) || Settles(s, step, job, Failed)
  }

  /** The occurrence a skip or a commit puts on record. */
  ghost function Occurrence(s: State, step: Step): int {
    if step.AdvanceCursor? then (if step.last.Some? then step.last.value else 0)
    else if OnRun(step) && step.id in s.runs then s.runs[step.id].scheduledFor else 0
  }

  ghost predicate SkipsAt(steps: seq<Step>, k: nat, job: string)
    requires k < |steps|
  {
    Skips(Execute(EMPTY, steps[..k]), steps[k], job)
  }

  ghost predicate SettlesRunAt(steps: seq<Step>, k: nat, job: string)
    requires k < |steps|
  {
    SettlesRun(Execute(EMPTY, steps[..k]), steps[k], job)
  }

  ghost function OccurrenceAt(steps: seq<Step>, k: nat): int
    requires k < |steps|
  {
    Occurrence(Execute(EMPTY, steps[..k]), steps[k])
  }

  ghost predicate NoSkipAfter(steps: seq<Step>, k: nat, job: string) {
    forall m: nat :: k < m < |steps| ==> !SkipsAt(steps, m, job)
  }

  /** The latest skip of the job and the commits after it, or all its commits when it was never skipped. */
  ghost function LastSources(steps: seq<Step>, job: string): set<nat> {
    set k: nat | k < |steps| && (SkipsAt(steps, k, job) || SettlesRunAt(steps, k, job)) && NoSkipAfter(steps, k, job)
  }

  /** `last` is the largest occurrence among the sources. */
  ghost predicate IsLatestOf(last: Option<int>, steps: seq<Step>, sources: set<nat>)
    requires forall k :: k in sources ==> k < |steps|
  {
    && (last.None? <==> sources == {})
    && (last.Some? ==> exists k :: k in sources && OccurrenceAt(steps, k) == last.value)
    && (last.Some? ==> forall k :: k in sources ==> OccurrenceAt(steps, k) <= last.value)
  }

  /** What one step does to the column. */
  lemma LastStep(s: State, step: Step, job: string)
    requires Inv(s) && !Overwrites(step, job)
    ensures job in s.jobs ==> job in Apply(s, step).jobs
    ensures Skips(s, step, job) || SettlesRun(s, step, job) ==> job in s.jobs
    ensures !(Skips(s, step, job) && SettlesRun(s, step, job))
    ensures job in s.jobs ==>
              Apply(s, step).jobs[job].last
              == if Skips(s, step, job) then Some(Occurrence(s, step))
                 else if SettlesRun(s, step, job) then Later(s.jobs[job].last, Occurrence(s, step))
                 else s.jobs[job].last
    ensures job !in s.jobs && job in Apply(s, step).jobs ==> Apply(s, step).jobs[job].last.None?
  {
    if Enabled(s, step) && OnRun(step) {
      RunStepAdvances(s, step);
    }
  }

  lemma SourcePrefix(front: seq<Step>, step: Step, k: nat, job: string)
    requires k <= |front|
    ensures var s := Execute(EMPTY, front);
            && SkipsAt(front + [step], k, job) == (if k < |front| then SkipsAt(front, k, job) else Skips(s, step, job))
            && SettlesRunAt(front + [step], k, job)
               == (if k < |front| then SettlesRunAt(front, k, job) else SettlesRun(s, step, job))
            && OccurrenceAt(front + [step], k) == if k < |front| then OccurrenceAt(front, k) else Occurrence(s, step)
  {
    hide Execute, Skips, SettlesRun, Occurrence;
    assert (front + [step])[..k] == front[..k] && front[..|front|] == front;
  }

  /** How one more step changes the sources. */
  lemma SourcesSnoc(front: seq<Step>, step: Step, job: string)
    ensures var s := Execute(EMPTY, front);
            LastSources(front + [step], job)
            == if Skips(s, step, job) then {|front|}
               else LastSources(front, job) + if SettlesRun(s, step, job) then {|front|} else {}
  {
    hide Execute, Skips, SkipsAt, SettlesRun, SettlesRunAt, OccurrenceAt;
    var s, steps := Execute(EMPTY, front), front + [step];
    forall k: nat | k <= |front|
      ensures SkipsAt(steps, k, job) == if k < |front| then SkipsAt(front, k, job) else Skips(s, step, job)
      ensures SettlesRunAt(steps, k, job) == if k < |front| then SettlesRunAt(front, k, job) else SettlesRun(s, step, job)
    {
      SourcePrefix(front, step, k, job);
    }
    forall k: nat | k < |front|
      ensures NoSkipAfter(steps, k, job) <==> NoSkipAfter(front, k, job) && !Skips(s, step, job)
    {
      assert NoSkipAfter(steps, k, job) ==> !SkipsAt(steps, |front|, job);
    }
    assert NoSkipAfter(steps, |front|, job);
  }

  lemma SourcesInRange(steps: seq<Step>, job: string)
    ensures forall k :: k in LastSources(steps, job) ==> k < |steps|
  {
  }

  /** Adding the newest source, or starting over with it, keeps the column the largest. */
  lemma LatestSnoc(front: seq<Step>, step: Step, job: string, last: Option<int>)
    requires forall k :: k in LastSources(front, job) ==> k < |front|
    requires IsLatestOf(last, front, LastSources(front, job))
    requires forall k :: k in LastSources(front + [step], job) ==> k < |front + [step]|
    ensures var s := Execute(EMPTY, front);
            var last' := if Skips(s, step, job) then Some(Occurrence(s, step))
                         else if SettlesRun(s, step, job) then Later(last, Occurrence(s, step)) else last;
            IsLatestOf(last', front + [step], LastSources(front + [step], job))
  {
    hide Execute, Skips, SettlesRun, Occurrence, OccurrenceAt, LastSources;
    var s, steps := Execute(EMPTY, front), front + [step];
    SourcesSnoc(front, step, job);
    forall k: nat | k <= |front|
      ensures OccurrenceAt(steps, k) == if k < |front| then OccurrenceAt(front, k) else Occurrence(s, step)
    {
      SourcePrefix(front, step, k, job);
    }
    var old', new' := LastSources(front, job), LastSources(steps, job);
    if Skips(s, step, job) || SettlesRun(s, step, job) {
      assert |front| in new';
    }
    if !Skips(s, step, job) && last.Some? {
      var k :| k in old' && OccurrenceAt(front, k) == last.value;
      assert k in new' && OccurrenceAt(steps, k) == last.value;
    }
  }

  /**
   Over every history `last` is the largest of the occurrence written by the latest skip and those
   committed since, and it is absent exactly when there is none.
   */
  lemma {:induction false} LastIsLatest(steps: seq<Step>, job: string)
    requires forall i :: 0 <= i < |steps| ==> !Overwrites(steps[i], job)
    ensures forall k :: k in LastSources(steps, job) ==> k < |steps|
    ensures var s := Execute(EMPTY, steps);
            IsLatestOf(if job in s.jobs then s.jobs[job].last else None, steps, LastSources(steps, job))
  {
    SourcesInRange(steps, job);
    if steps != [] {
      var front, step := steps[..|steps| - 1], steps[|steps| - 1];
      LastIsLatest(front, job);
      InvAlways(EMPTY, front);
      LastStep(Execute(EMPTY, front), step, job);
      ExecuteSnoc(EMPTY, front, step);
      hide Execute, Apply, Skips, SettlesRun, LastSources, IsLatestOf;
      assert steps == front + [step];
      var s := Execute(EMPTY, front);
      LatestSnoc(front, step, job, if job in s.jobs then s.jobs[job].last else None);
    }
  }

  // ----- the run behind the last occurrence

  /** The occurrence has a run of the job that is over. */
  ghost predicate ClosedSlot(s: State, job: string, t: int) {
    exists id :: id in s.runs && s.runs[id].jobId == job && s.runs[id].scheduledFor == t && Terminal(s.runs[id].status)
  }

  /** An open run of the job holds the occurrence. */
  ghost predicate OpenSlot(s: State, job: string, t: int) {
    exists id :: id in s.runs && s.runs[id].jobId == job && s.runs[id].scheduledFor == t && !Terminal(s.runs[id].status)
  }

  lemma ClosedStays(s: State, steps: seq<Step>, job: string, t: int)
    requires Inv(s) && ClosedSlot(s, job, t)
    ensures ClosedSlot(Execute(s, steps), job, t)
  {
    var id :| id in s.runs && s.runs[id].jobId == job && s.runs[id].scheduledFor == t && Terminal(s.runs[id].status);
    TerminalIsFinal(s, steps, id);
    assert Execute(s, steps).runs[id] == s.runs[id];
  }

  lemma CommitCloses(s: State, step: Step, job: string)
    requires Inv(s) && SettlesRun(s, step, job)
    ensures ClosedSlot(Apply(s, step), job, Occurrence(s, step))
  {
    RunStepAdvances(s, step);
    var after := Apply(s, step);
    assert after.runs[step.id].jobId == job && Terminal(after.runs[step.id].status);
  }

  /** The skipped row a startup plan inserts closes its occurrence exactly when no open run holds it. */
  lemma SkipClosesSlotIff(s: State, job: string, id: string, t: int)
    requires Inv(s) && !InsertRaises(s, id, job, t, None)
    ensures ClosedSlot(Apply(s, InsertRun(id, job, t, None, true)), job, t)
       <==> !OpenSlot(s, job, t)
  {
    var insert := InsertRun(id, job, t, None, true);
    var after := Apply(s, insert);
    InvStep(s, insert);
    if SlotTaken(s, job, t) {
      var holder :| holder in s.runs && s.runs[holder].jobId == job && s.runs[holder].scheduledFor == t;
      assert after == s;
      assert forall other :: other in s.runs && s.runs[other].jobId == job && s.runs[other].scheduledFor == t ==>
          SameSlot(s.runs[other], s.runs[holder]);
    } else {
      assert after.runs[id].jobId == job && after.runs[id].status == Skipped;
    }
  }

  lemma MarkCloses(s: State, step: Step, job: string)
    requires Inv(s)
    requires SettlesRun(s, step, job) || ClosedSlot(s, job, Occurrence(s, step))
    ensures Inv(Apply(s, step)) && ClosedSlot(Apply(s, step), job, Occurrence(s, step))
  {
    hide Apply, ClosedSlot, SettlesRun, Occurrence, Inv;
    InvStep(s, step);
    if SettlesRun(s, step, job) {
      CommitCloses(s, step, job);
    } else {
      ClosedAfter(s, step, job, Occurrence(s, step));
    }
  }

  lemma SplitAt(steps: seq<Step>, k: nat)
    requires k < |steps|
    ensures Execute(EMPTY, steps) == Execute(Apply(Execute(EMPTY, steps[..k]), steps[k]), steps[k + 1..])
  {
    hide Execute, Apply;
    assert steps[..k + 1] == steps[..k] + [steps[k]] && steps == steps[..k + 1] + steps[k + 1..];
    ExecuteSnoc(EMPTY, steps[..k], steps[k]);
    ExecuteConcat(EMPTY, steps[..k + 1], steps[k + 1..]);
  }

  /** A source of `last` names a run that is over, if it is a commit or a skip that closed its occurrence. */
  lemma SourceIsClosed(steps: seq<Step>, k: nat, job: string)
    requires k < |steps|
    requires SettlesRunAt(steps, k, job) || ClosedSlot(Execute(EMPTY, steps[..k]), job, OccurrenceAt(steps, k))
    ensures ClosedSlot(Execute(EMPTY, steps), job, OccurrenceAt(steps, k))
  {
    hide Execute, Apply, ClosedSlot, SettlesRun, Occurrence, Inv;
    var before := Execute(EMPTY, steps[..k]);
    InvEmpty();
    InvAlways(EMPTY, steps[..k]);
    MarkCloses(before, steps[k], job);
    SplitAt(steps, k);
    ClosedStays(Apply(before, steps[k]), steps[k + 1..], job, OccurrenceAt(steps, k));
  }

  lemma ClosedAfter(s: State, step: Step, job: string, t: int)
    requires Inv(s) && ClosedSlot(s, job, t)
    ensures ClosedSlot(Apply(s, step), job, t)
  {
    ClosedStays(s, [step], job, t);
    ExecuteNone(s);
    ExecuteSnoc(s, [], step);
    assert [] + [step] == [step];
  }

  /** If the latest skip closed its occurrence, `last` is the occurrence of a run that is over. */
  lemma LastNamesClosedRun(steps: seq<Step>, job: string)
    requires forall i :: 0 <= i < |steps| ==> !Overwrites(steps[i], job)
    requires forall k: nat :: k < |steps| && k in LastSources(steps, job) && SkipsAt(steps, k, job) ==>
               ClosedSlot(Execute(EMPTY, steps[..k]), job, OccurrenceAt(steps, k))
    ensures var s := Execute(EMPTY, steps);
            job in s.jobs && s.jobs[job].last.Some? ==> ClosedSlot(s, job, s.jobs[job].last.value)
  {
    LastIsLatest(steps, job);
    hide Execute, ClosedSlot, SkipsAt, SettlesRunAt, OccurrenceAt;
    var s := Execute(EMPTY, steps);
    if job in s.jobs && s.jobs[job].last.Some? {
      var k :| k in LastSources(steps, job) && OccurrenceAt(steps, k) == s.jobs[job].last.value;
      SourceIsClosed(steps, k, job);
    }
  }

  lemma InvEmpty()
    ensures Inv(EMPTY)
  {
  }

  // ----- skipping can move the last occurrence back

  /** A run of the job that succeeded or failed at an occurrence after `t`. */
  ghost predicate SettledAhead(s: State, job: string, t: int) {
    exists id :: id in RunsOf(s, job, Failed) + RunsOf(s, job, Succeeded) && s.runs[id].scheduledFor > t
  }

  /** The SKIP policy of a restart at `now`: the cursor move of its plan. */
  ghost predicate SkipMove(s: State, job: string, skip: Step, now: int, zone: Zones) {
    && skip.AdvanceCursor? && skip.job == job && Enabled(s, skip)
    && Due(Some(skip.expectedNext), now)
    && IsStartupPlan(s.jobs[job].schedule, zone, Some(skip.expectedNext), SkipMissed, now,
                     Plan([], [skip.expectedNext], skip.next, skip.last))
  }

  /**
   The transaction of a start under SKIP, its row and its cursor move, leaves `last` naming a run that is
   over if and only if no open run held the occurrence before.
   */
  lemma SkipNamesClosedRunIff(s: State, job: string, id: string, skip: Step, now: int, zone: Zones)
    requires Inv(s) && SkipMove(s, job, skip, now, zone) && !InsertRaises(s, id, job, skip.expectedNext, None)
    ensures var inserted := Apply(s, InsertRun(id, job, skip.expectedNext, None, true));
            && SkipMove(inserted, job, skip, now, zone)
            && Apply(inserted, skip).jobs[job].last == Some(skip.expectedNext)
            && (ClosedSlot(Apply(inserted, skip), job, skip.expectedNext) <==> !OpenSlot(s, job, skip.expectedNext))
  {
    hide IsNext, Inv, OpenSlot;
    SkipClosesSlotIff(s, job, id, skip.expectedNext);
    var inserted := Apply(s, InsertRun(id, job, skip.expectedNext, None, true));
    assert inserted.jobs == s.jobs;
    assert Apply(inserted, skip).runs == inserted.runs;
  }

  /** A manual request at the due instant holds the occurrence, so a start under SKIP records a run as last that is still pending. */
  lemma SkipNamesPendingRun(zone: Zones) returns (steps: seq<Step>, skip: Step, now: int)
    ensures Coverage.Orderly(steps, "job", zone)
    ensures SkipMove(Execute(EMPTY, steps), "job", skip, now, zone)
    ensures var after := Apply(Execute(EMPTY, steps), skip);
            && "manual" in after.runs && after.runs["manual"].jobId == "job" && after.runs["manual"].status == Pending
            && after.jobs["job"].last == Some(after.runs["manual"].scheduledFor)
            && !ClosedSlot(after, "job", after.runs["manual"].scheduledFor)
  {
    var schedule := Interval(1000, 0);
    var create := CreateJob("job", true, schedule, Some(2000), 1500);
    var request := InsertRun("manual", "job", 2000, Some("request"), false);
    var skipped := InsertRun("skipped", "job", 2000, None, true);
    skip, now := AdvanceCursor("job", 2000, Some(4000), Some(2000)), 3500;
    Coverage.TickIsNext(1000, 0, 1500, 2, zone);
    Coverage.TickIsNext(1000, 0, 3500, 4, zone);
    hide Execute, IsNext;
    var s1 := State(map["job" := Job(true, schedule, 1, Some(2000), None, 0)], map[]);
    var s2 := State(s1.jobs, map["manual" := FreshRun("job", 2000, Some("request"), false)]);
    ExecuteNone(EMPTY);
    Applied([], EMPTY, create, s1);
    steps := [] + [create];
    Applied(steps, s1, request, s2);
    steps := steps + [request];
    assert SlotTaken(s2, "job", 2000) by { assert s2.runs["manual"].jobId == "job"; }
    Applied(steps, s2, skipped, s2);
    steps := steps + [skipped];
    assert |steps| == 3;
  }

  /**
   Over every history, skipping an overdue cursor moves `last` back if and only if a source of `last`, the
   latest skip or a commit since, is ahead of the cursor. As it writes the cursor and touches no run, `last`
   then is behind a settled occurrence exactly when a run ahead of the cursor has succeeded or failed.
   */
  lemma SkipRewindsIff(steps: seq<Step>, job: string, skip: Step, now: int, zone: Zones)
    requires forall i :: 0 <= i < |steps| ==> !Overwrites(steps[i], job)
    requires SkipMove(Execute(EMPTY, steps), job, skip, now, zone)
    ensures var s := Execute(EMPTY, steps);
            var last := Apply(s, skip).jobs[job].last;
            && last == Some(skip.expectedNext)
            && (s.jobs[job].last.Some? && last.value < s.jobs[job].last.value
                <==> exists k: nat :: k < |steps| && k in LastSources(steps, job) && OccurrenceAt(steps, k) > skip.expectedNext)
            && (SettledAhead(Apply(s, skip), job, last.value) <==> SettledAhead(s, job, skip.expectedNext))
  {
    LastIsLatest(steps, job);
    var s := Execute(EMPTY, steps);
    hide Execute, LastSources, OccurrenceAt;
    assert Apply(s, skip).runs == s.runs;
    assert RunsOf(Apply(s, skip), job, Failed) == RunsOf(s, job, Failed);
    assert RunsOf(Apply(s, skip), job, Succeeded) == RunsOf(s, job, Succeeded);
  }

  /** Claim, start and success of a pending run, in a row. */
  function Success(id: string, at: int): seq<Step> {
    [Claim(id, "host", at, at + 30000), MarkRunning(id, "host", at, at + 30000), Finish(id, "host", at, Succeeded, None, None)]
  }

  lemma RunsToSuccess(s: State, id: string, at: int)
    requires id in s.runs && s.runs[id].status == Pending && s.runs[id].jobId in s.jobs
    ensures var run := s.runs[id];
            Execute(s, Success(id, at))
            == State(s.jobs[run.jobId := Settle(s.jobs[run.jobId], Succeeded, run.scheduledFor)],
                     s.runs[id := run.(status := Succeeded, lease := None, attempt := run.attempt + 1, errorCode := None)])
  {
    hide Execute;
    var steps := Success(id, at);
    var run := s.runs[id];
    var claimed := run.(status := Claimed, lease := Some(Lease(at, "host", at + 30000)), attempt := run.attempt + 1, errorCode := None);
    var running := claimed.(status := Running);
    ExecuteNone(s);
    ExecuteSnoc(s, [], steps[0]);
    assert [] + [steps[0]] == [steps[0]];
    assert Execute(s, [steps[0]]) == State(s.jobs, s.runs[id := claimed]);
    ExecuteSnoc(s, [steps[0]], steps[1]);
    assert [steps[0]] + [steps[1]] == [steps[0], steps[1]];
    assert Execute(s, [steps[0], steps[1]]) == State(s.jobs, s.runs[id := running]) by {
      assert s.runs[id := claimed][id := running] == s.runs[id := running];
    }
    ExecuteSnoc(s, [steps[0], steps[1]], steps[2]);
    assert [steps[0], steps[1]] + [steps[2]] == steps;
  }

  lemma Applied(front: seq<Step>, s: State, step: Step, t: State)
    requires Execute(EMPTY, front) == s && Apply(s, step) == t
    ensures Execute(EMPTY, front + [step]) == t
  {
    ExecuteSnoc(EMPTY, front, step);
  }

  /** A late wake: the overdue job, a manual request, and the first due occurrence with its cursor move. */
  lemma LateWake(schedule: Schedule) returns (steps: seq<Step>, s: State)
    ensures steps == [CreateJob("job", true, schedule, Some(2000), 1500)]
                     + [InsertRun("manual", "job", 100000, Some("request"), false)]
                     + [InsertRun("due", "job", 2000, None, false)] + [AdvanceCursor("job", 2000, Some(3000), None)]
    ensures s == State(map["job" := Job(true, schedule, 1, Some(3000), None, 0)],
                       map["manual" := FreshRun("job", 100000, Some("request"), false), "due" := FreshRun("job", 2000, None, false)])
    ensures s == Execute(EMPTY, steps)
  {
    var job := Job(true, schedule, 1, Some(2000), None, 0);
    var request, occurrence := FreshRun("job", 100000, Some("request"), false), FreshRun("job", 2000, None, false);
    var s1 := State(map["job" := job], map[]);
    var s2 := State(map["job" := job], map["manual" := request]);
    var s3 := State(map["job" := job], map["manual" := request, "due" := occurrence]);
    hide Execute;
    ExecuteNone(EMPTY);
    var create := CreateJob("job", true, schedule, Some(2000), 1500);
    assert [] + [create] == [create];
    Applied([], EMPTY, create, s1);
    steps := [create];
    Applied(steps, s1, InsertRun("manual", "job", 100000, Some("request"), false), s2);
    steps := steps + [InsertRun("manual", "job", 100000, Some("request"), false)];
    Applied(steps, s2, InsertRun("due", "job", 2000, None, false), s3);
    steps := steps + [InsertRun("due", "job", 2000, None, false)];
    s := State(map["job" := job.(next := Some(3000))], s3.runs);
    Applied(steps, s3, AdvanceCursor("job", 2000, Some(3000), None), s);
    steps := steps + [AdvanceCursor("job", 2000, Some(3000), None)];
  }

  /** The woken host runs the occurrence and then the request, and the next start records the skipped occurrence. */
  lemma LateRuns(head: seq<Step>, woken: State, schedule: Schedule) returns (s: State)
    requires woken == State(map["job" := Job(true, schedule, 1, Some(3000), None, 0)],
                            map["manual" := FreshRun("job", 100000, Some("request"), false), "due" := FreshRun("job", 2000, None, false)])
    requires woken == Execute(EMPTY, head)
    ensures s == Execute(EMPTY, head + Success("due", 100000) + Success("manual", 100001) + [InsertRun("skipped", "job", 3000, None, true)])
    ensures s.jobs == map["job" := Job(true, schedule, 1, Some(3000), Some(100000), 0)]
    ensures "manual" in RunsOf(s, "job", Succeeded) && s.runs["manual"].scheduledFor == 100000
  {
    hide Execute;
    RunsToSuccess(woken, "due", 100000);
    ExecuteConcat(EMPTY, head, Success("due", 100000));
    var once := Execute(woken, Success("due", 100000));
    RunsToSuccess(once, "manual", 100001);
    ExecuteConcat(EMPTY, head + Success("due", 100000), Success("manual", 100001));
    var twice := Execute(once, Success("manual", 100001));
    assert twice.jobs == map["job" := Job(true, schedule, 1, Some(3000), Some(100000), 0)];
    var skipped := InsertRun("skipped", "job", 3000, None, true);
    ExecuteSnoc(EMPTY, head + Success("due", 100000) + Success("manual", 100001), skipped);
    s := Apply(twice, skipped);
    assert s.jobs == twice.jobs;
    RowStep(twice, skipped, "manual");
  }

  lemma OrderlyConcat(a: seq<Step>, b: seq<Step>, job: string, zone: Zones)
    requires Coverage.Orderly(a, job, zone) && Coverage.Orderly(b, job, zone)
    ensures Coverage.Orderly(a + b, job, zone)
  {
    hide Coverage.OrderlyStep;
  }

  lemma OrderlyParts(head: seq<Step>, schedule: Schedule, id: string, at: int, zone: Zones)
    requires schedule == Interval(1000, 0)
    requires head == [CreateJob("job", true, schedule, Some(2000), 1500)]
                     + [InsertRun("manual", "job", 100000, Some("request"), false)]
                     + [InsertRun("due", "job", 2000, None, false)] + [AdvanceCursor("job", 2000, Some(3000), None)]
    ensures Coverage.Orderly(head, "job", zone) && Coverage.Orderly(Success(id, at), "job", zone)
    ensures Coverage.Orderly([InsertRun("skipped", "job", 3000, None, true)], "job", zone)
  {
    Coverage.TickIsNext(1000, 0, 1500, 2, zone);
    assert Coverage.FromService(head[0], zone);
    hide IsNext, Coverage.FromService;
    assert |head| == 4;
  }

  /**
   A job every second, first due at 2 s. The host sleeps to 100 s and runs the first due occurrence and a
   manual request; restarting at 101.5 s under SKIP moves `last` from 100 s back to 3 s.
   */
  lemma SkipRewindsLast(zone: Zones) returns (steps: seq<Step>, skip: Step, now: int)
    ensures Coverage.Orderly(steps, "job", zone)
    ensures SkipMove(Execute(EMPTY, steps), "job", skip, now, zone)
    ensures Execute(EMPTY, steps).jobs["job"].last == Some(100000)
    ensures Apply(Execute(EMPTY, steps), skip).jobs["job"].last == Some(3000)
    ensures SettledAhead(Apply(Execute(EMPTY, steps), skip), "job", 3000)
  {
    hide Execute, Coverage.Orderly, IsNext;
    var schedule := Interval(1000, 0);
    var head, woken := LateWake(schedule);
    var s := LateRuns(head, woken, schedule);
    var skipped := InsertRun("skipped", "job", 3000, None, true);
    steps := head + Success("due", 100000) + Success("manual", 100001) + [skipped];
    OrderlyParts(head, schedule, "due", 100000, zone);
    OrderlyParts(head, schedule, "manual", 100001, zone);
    OrderlyConcat(head, Success("due", 100000), "job", zone);
    OrderlyConcat(head + Success("due", 100000), Success("manual", 100001), "job", zone);
    OrderlyConcat(head + Success("due", 100000) + Success("manual", 100001), [skipped], "job", zone);
    skip, now := AdvanceCursor("job", 3000, Some(102000), Some(3000)), 101500;
    Coverage.TickIsNext(1000, 0, 101500, 102, zone);
    assert "manual" in RunsOf(Apply(s, skip), "job", Succeeded);
  }
}
