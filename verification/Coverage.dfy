/**
 Plans and reconfigurations over whole histories. A plan is made from a snapshot of a due job and
 applied later; in between anybody may change the ledger. The cursor guard admits a plan only under
 the schedule it was made for, and starts and wakes leave no occurrence of the schedule in force
 without a run, except those a catch-up policy drops.
 */
module Coverage {
  import opened Common
  import opened Schedule
  import opened CatchUp
  import opened Ledger
  import opened LedgerSafety

  /** The job is due: what `listDueJobs` returns at `now`. */
  ghost predicate DueAt(s: State, job: string, cursor: int, now: int) {
    job in s.jobs && s.jobs[job].enabled && s.jobs[job].next == Some(cursor) && cursor <= now
  }

  predicate SetsUp(step: Step, job: string) {
    (step.CreateJob? || step.Configure?) && step.job == job
  }

  /** `normalizeScheduleState`: an enabled job starts at the first occurrence after now, a disabled one has no cursor. */
  ghost predicate FromService(step: Step, zone: Zones)
    requires step.CreateJob? || step.Configure?
  {
    if step.enabled then step.next.Some? && IsNext(step.schedule, zone, step.at, step.next) else step.next.None?
  }

  /** Every plan moves the cursor forward. */
  predicate Forward(step: Step)
    requires step.AdvanceCursor?
  {
    step.next.Some? ==> step.next.value > step.expectedNext
  }

  /** The steps on a job come from the definition service and from plans. */
  ghost predicate Orderly(steps: seq<Step>, job: string, zone: Zones) {
    forall i :: 0 <= i < |steps| ==> OrderlyStep(steps[i], job, zone)
  }

  ghost predicate OrderlyStep(step: Step, job: string, zone: Zones) {
    && (SetsUp(step, job) ==> FromService(step, zone))
    && (step.AdvanceCursor? && step.job == job ==> Forward(step))
    && !(step.SetRuntime? && step.job == job)
  }

  /** No reconfiguration of the job among `steps` reads a clock before `now`. */
  ghost predicate ClockFrom(steps: seq<Step>, job: string, now: int) {
    forall i :: 0 <= i < |steps| && SetsUp(steps[i], job) ==> steps[i].at >= now
  }

  predicate Past(next: Option<int>, cursor: int) {
    next.Some? ==> next.value > cursor
  }

  /** The configuration of the job is that of `before`. */
  ghost predicate SameConfig(before: State, after: State, job: string)
    requires job in before.jobs
  {
    && job in after.jobs && after.jobs[job].revision == before.jobs[job].revision
    && after.jobs[job].schedule == before.jobs[job].schedule && after.jobs[job].enabled == before.jobs[job].enabled
  }

  lemma CursorFateStep(s0: State, s: State, step: Step, job: string, cursor: int, now: int, zone: Zones)
    requires job in s0.jobs && job in s.jobs && cursor <= now
    requires SameConfig(s0, s, job) || Past(s.jobs[job].next, cursor)
    requires OrderlyStep(step, job, zone) && ClockFrom([step], job, now)
    ensures job in Apply(s, step).jobs
    ensures SameConfig(s0, Apply(s, step), job) || Past(Apply(s, step).jobs[job].next, cursor)
  {
    assert SetsUp(step, job) ==> [step][0].at >= now;
  }

  /** From a due cursor on, the configuration is unchanged or the cursor has moved past it. */
  lemma {:induction false} CursorFate(s: State, steps: seq<Step>, job: string, cursor: int, now: int, zone: Zones)
    requires DueAt(s, job, cursor, now) && Orderly(steps, job, zone) && ClockFrom(steps, job, now)
    ensures job in Execute(s, steps).jobs
    ensures SameConfig(s, Execute(s, steps), job) || Past(Execute(s, steps).jobs[job].next, cursor)
  {
    if steps != [] {
      var front, step := steps[..|steps| - 1], steps[|steps| - 1];
      CursorFate(s, front, job, cursor, now, zone);
      hide Apply, SameConfig, OrderlyStep;
      CursorFateStep(s, Execute(s, front), step, job, cursor, now, zone);
    }
  }

  /**
   A plan for a due cursor that the ledger still accepts was made under the configuration in
   force, whatever happened since the snapshot, as long as the clock did not go back.
   */
  lemma AcceptedPlanIsCurrent(s: State, steps: seq<Step>, job: string, now: int, plan: Step, zone: Zones)
    requires plan.AdvanceCursor? && plan.job == job && DueAt(s, job, plan.expectedNext, now)
    requires Orderly(steps, job, zone) && ClockFrom(steps, job, now)
    requires Enabled(Execute(s, steps), plan)
    ensures SameConfig(s, Execute(s, steps), job)
  {
    CursorFate(s, steps, job, plan.expectedNext, now, zone);
  }

  // ----- a reconfiguration under a pending plan

  lemma NextDecides(s: Schedule, zone: Zones, after: int, next: Option<int>, other: Option<int>)
    requires IsNext(s, zone, after, next)
    ensures IsNext(s, zone, after, other) <==> other == next
  {
  }

  /**
   The guard looks at the cursor and not at the revision. After any reconfiguration, by whatever
   caller, a pending plan is accepted and leads the cursor off the new schedule if and only if the
   job stays enabled, the written cursor is the planned one, and the schedules disagree on what
   comes next.
   */
  lemma StalePlanIff(s: State, edit: Step, plan: Step, zone: Zones, next: Option<int>)
    requires edit.Configure? && Enabled(s, edit)
    requires plan.AdvanceCursor? && plan.job == edit.job && Instant(plan.next) && Instant(plan.last)
    requires IsNext(edit.schedule, zone, plan.expectedNext, next)
    ensures Enabled(Apply(s, edit), plan) && !IsNext(edit.schedule, zone, plan.expectedNext, plan.next)
       <==> edit.enabled && edit.next == Some(plan.expectedNext) && plan.next != next
  {
    NextDecides(edit.schedule, zone, plan.expectedNext, next, plan.next);
  }

  /** With a clock that goes back between planning and reconfiguring, the definition service itself writes such a cursor. */
  lemma ClockBackAdmitsStalePlan(zone: Zones) returns (create: Step, edit: Step, now: int, plan: Step)
    ensures create.CreateJob? && edit.Configure? && plan.AdvanceCursor?
    ensures FromService(create, zone) && FromService(edit, zone) && edit.at < now
    ensures DueAt(Execute(EMPTY, [create]), "job", plan.expectedNext, now)
    ensures IsNext(create.schedule, zone, plan.expectedNext, plan.next)
    ensures Enabled(Execute(EMPTY, [create, edit]), plan)
    ensures !IsNext(edit.schedule, zone, plan.expectedNext, plan.next)
  {
    var before, after := Interval(MINUTE, 0), Interval(2 * MINUTE, MINUTE);
    create := CreateJob("job", true, before, Some(MINUTE), 0);
    edit := Configure("job", 1, true, after, Some(MINUTE), 0);
    plan := AdvanceCursor("job", MINUTE, Some(2 * MINUTE), None);
    now := MINUTE;
    TickIsNext(MINUTE, 0, 0, 1, zone);
    TickIsNext(MINUTE, 0, MINUTE, 2, zone);
    TickIsNext(2 * MINUTE, MINUTE, 0, 0, zone);
    TickIsNext(2 * MINUTE, MINUTE, MINUTE, 1, zone);
    NextDecides(after, zone, MINUTE, Some(3 * MINUTE), plan.next);
    ExecuteNone(EMPTY);
    ExecuteSnoc(EMPTY, [], create);
    assert [] + [create] == [create];
    ExecuteSnoc(EMPTY, [create], edit);
    assert [create] + [edit] == [create, edit];
  }

  lemma TickIsNext(every: int, anchor: int, after: int, k: nat, zone: Zones)
    requires every > 0
    requires after < Tick(every, anchor, k) && (k > 0 ==> Tick(every, anchor, k - 1) <= after)
    ensures IsNext(Interval(every, anchor), zone, after, Some(Tick(every, anchor, k)))
  {
    forall t | after < t < Tick(every, anchor, k)
      ensures !Occurs(Interval(every, anchor), zone, t)
    {
      if j: nat :| t == Tick(every, anchor, j) {
        if j >= k {
          MultiplyMonotone(k, j, every);
        } else {
          MultiplyMonotone(j, k - 1, every);
        }
      }
    }
  }

  // ----- coverage by wakes and restarts

  /** A plan and where it comes from: after how many steps, at what time, and under which policy if made at a start. */
  datatype Planning = Planning(index: nat, now: int, startup: Option<Policy>, plan: Plan)

  ghost predicate IsPlan(s: Schedule, zone: Zones, cursor: int, p: Planning) {
    if p.startup.Some? then IsStartupPlan(s, zone, Some(cursor), p.startup.value, p.now, p.plan)
    else IsRegularPlan(s, zone, Some(cursor), p.plan)
  }

  /**
   Step `i` applies a plan: it was made from a snapshot of the due job, the clock has not gone back
   since, and its transaction has seen to the runs it plans.
   */
  ghost predicate AppliesPlan(steps: seq<Step>, i: nat, p: Planning, zone: Zones)
    requires i < |steps| && steps[i].AdvanceCursor?
  {
    && p.index <= i && ClockFrom(steps[p.index..i], steps[i].job, p.now)
    && var snapshot, move := Execute(EMPTY, steps[..p.index]), steps[i];
       && DueAt(snapshot, move.job, move.expectedNext, p.now)
       && IsPlan(snapshot.jobs[move.job].schedule, zone, move.expectedNext, p)
       && move.next == p.plan.next && move.last == p.plan.last
       && HasRuns(Execute(EMPTY, steps[..i]), move.job, p.plan)
  }

  ghost predicate HasRuns(s: State, job: string, plan: Plan) {
    forall t :: Plans(plan, t) ==> SlotTaken(s, job, t)
  }

  /** The step moves the cursor of the job. */
  ghost predicate Moves(s: State, step: Step, job: string) {
    step.AdvanceCursor? && step.job == job && Enabled(s, step)
  }

  /** Every cursor move of the job applies a plan of a start or of a regular wake. */
  ghost predicate PlannedMoves(steps: seq<Step>, job: string, planning: nat -> Planning, zone: Zones) {
    forall i: nat :: i < |steps| && Moves(Execute(EMPTY, steps[..i]), steps[i], job) ==> AppliesPlan(steps, i, planning(i), zone)
  }

  /** The first instant after the job last got its schedule. */
  ghost function InForceFrom(steps: seq<Step>, job: string): int {
    if steps == [] then 0 else
      var front, step := steps[..|steps| - 1], steps[|steps| - 1];
      if SetsUp(step, job) && Enabled(Execute(EMPTY, front), step) then step.at + 1 else InForceFrom(front, job)
  }

  ghost function DropsOf(p: Planning): iset<int> {
    if p.startup.Some? then iset t: int | Drops(p.plan, p.startup.value, p.now, t) else iset{}
  }

  /** What the starts have dropped since the job last got its schedule. */
  ghost function Dropped(steps: seq<Step>, job: string, planning: nat -> Planning): iset<int> {
    if steps == [] then iset{} else
      var front, step := steps[..|steps| - 1], steps[|steps| - 1];
      var s := Execute(EMPTY, front);
      if SetsUp(step, job) && Enabled(s, step) then iset{}
      else Dropped(front, job, planning) + if Moves(s, step, job) then DropsOf(planning(|front|)) else iset{}
  }

  /** Every occurrence of the schedule in force, from `from` up to the cursor, has its run or was dropped. */
  ghost predicate Covered(s: State, job: string, from: int, dropped: iset<int>, zone: Zones) {
    job in s.jobs && s.jobs[job].enabled ==>
      forall t :: from <= t && Occurs(s.jobs[job].schedule, zone, t) && (s.jobs[job].next.Some? ==> t < s.jobs[job].next.value) ==>
        SlotTaken(s, job, t) || t in dropped
  }

  lemma SlotStaysTaken(s: State, step: Step, job: string, t: int)
    requires SlotTaken(s, job, t)
    ensures SlotTaken(Apply(s, step), job, t)
  {
    var id :| id in s.runs && s.runs[id].jobId == job && s.runs[id].scheduledFor == t;
    RowStep(s, step, id);
    assert Apply(s, step).runs[id].jobId == job;
  }

  /** Steps that leave the configuration and the cursor of the job alone. */
  lemma OtherKeepsJob(s: State, step: Step, job: string)
    requires !SetsUp(step, job) && !((step.AdvanceCursor? || step.SetRuntime?) && step.job == job)
    ensures job in Apply(s, step).jobs <==> job in s.jobs
    ensures job in s.jobs ==>
              && Apply(s, step).jobs[job].next == s.jobs[job].next && Apply(s, step).jobs[job].enabled == s.jobs[job].enabled
              && Apply(s, step).jobs[job].schedule == s.jobs[job].schedule
  {
  }

  lemma OtherKeepsCovered(s: State, step: Step, job: string, from: int, dropped: iset<int>, zone: Zones)
    requires Covered(s, job, from, dropped, zone)
    requires !SetsUp(step, job) && !((step.AdvanceCursor? || step.SetRuntime?) && step.job == job)
    ensures Covered(Apply(s, step), job, from, dropped, zone)
  {
    OtherKeepsJob(s, step, job);
    var after := Apply(s, step);
    hide Apply, Occurs;
    if job in after.jobs && after.jobs[job].enabled {
      forall t | from <= t && Occurs(after.jobs[job].schedule, zone, t) && (after.jobs[job].next.Some? ==> t < after.jobs[job].next.value)
        ensures SlotTaken(after, job, t) || t in dropped
      {
        if SlotTaken(s, job, t) {
          SlotStaysTaken(s, step, job, t);
        }
      }
    }
  }

  /** A job that just got its schedule has nothing behind its cursor. */
  lemma SetUpCovers(s: State, step: Step, job: string, zone: Zones)
    requires SetsUp(step, job) && Enabled(s, step) && FromService(step, zone)
    ensures Covered(Apply(s, step), job, step.at + 1, iset{}, zone)
  {
    var row := Apply(s, step).jobs[job];
    assert row.schedule == step.schedule && row.next == step.next && row.enabled == step.enabled;
  }

  /** A plan accounts for every occurrence from the cursor it was made for up to the new one. */
  lemma PlanAccountsForAll(s: Schedule, zone: Zones, cursor: int, p: Planning, t: int)
    requires IsPlan(s, zone, cursor, p) && cursor <= p.now
    requires cursor <= t && Occurs(s, zone, t) && (p.plan.next.Some? ==> t < p.plan.next.value)
    ensures Plans(p.plan, t) || t in DropsOf(p)
  {
    hide Occurs, Drops;
    if p.startup.Some? {
      assert t <= p.now;
      StartupAccountsForAll(s, zone, cursor, p.startup.value, p.now, p.plan, t);
    } else {
      assert t == cursor;
    }
  }

  /** A cursor move under the schedule in force covers or drops what it moves past. */
  lemma MoveKeepsCovered(s: State, move: Step, job: string, from: int, dropped: iset<int>, p: Planning, zone: Zones)
    requires Moves(s, move, job) && move.expectedNext <= p.now && move.next == p.plan.next
    requires Covered(s, job, from, dropped, zone) && HasRuns(s, job, p.plan)
    requires IsPlan(s.jobs[job].schedule, zone, move.expectedNext, p)
    ensures Covered(Apply(s, move), job, from, dropped + DropsOf(p), zone)
  {
    var after := Apply(s, move);
    var schedule := s.jobs[job].schedule;
    assert after.runs == s.runs && after.jobs[job].next == move.next && after.jobs[job].schedule == schedule;
    hide Apply, Occurs, IsPlan, DropsOf, Plans;
    forall t | from <= t && Occurs(schedule, zone, t) && (move.next.Some? ==> t < move.next.value)
      ensures SlotTaken(after, job, t) || t in dropped + DropsOf(p)
    {
      if t >= move.expectedNext {
        PlanAccountsForAll(schedule, zone, move.expectedNext, p, t);
      }
      if SlotTaken(s, job, t) {
        var id :| id in s.runs && s.runs[id].jobId == job && s.runs[id].scheduledFor == t;
        assert after.runs[id] == s.runs[id];
      }
    }
  }

  /** The plan applied at step `i` is one of the schedule in force there. */
  lemma AppliedPlanIsCurrent(steps: seq<Step>, i: nat, p: Planning, job: string, zone: Zones)
    requires i < |steps| && Moves(Execute(EMPTY, steps[..i]), steps[i], job)
    requires Orderly(steps, job, zone) && AppliesPlan(steps, i, p, zone)
    ensures IsPlan(Execute(EMPTY, steps[..i]).jobs[job].schedule, zone, steps[i].expectedNext, p)
    ensures steps[i].expectedNext <= p.now && steps[i].next == p.plan.next && HasRuns(Execute(EMPTY, steps[..i]), job, p.plan)
  {
    hide Execute, Apply, IsPlan, HasRuns;
    var snapshot, since := Execute(EMPTY, steps[..p.index]), steps[p.index..i];
    assert steps[..i] == steps[..p.index] + since;
    ExecuteConcat(EMPTY, steps[..p.index], since);
    assert Orderly(since, job, zone);
    AcceptedPlanIsCurrent(snapshot, since, job, p.now, steps[i], zone);
  }

  /** How one more step changes what is in force and what was dropped. */
  lemma InForceSnoc(front: seq<Step>, step: Step, job: string, planning: nat -> Planning)
    ensures var s, all := Execute(EMPTY, front), front + [step];
            var renewed := SetsUp(step, job) && Enabled(s, step);
            && InForceFrom(all, job) == (if renewed then step.at + 1 else InForceFrom(front, job))
            && Dropped(all, job, planning)
               == if renewed then iset{}
                  else Dropped(front, job, planning) + if Moves(s, step, job) then DropsOf(planning(|front|)) else iset{}
  {
    hide Execute, Moves, DropsOf, SetsUp, Enabled;
    var all := front + [step];
    assert all[..|all| - 1] == front && all[|all| - 1] == step;
  }

  ghost predicate CoveredBy(steps: seq<Step>, job: string, planning: nat -> Planning, zone: Zones) {
    Covered(Execute(EMPTY, steps), job, InForceFrom(steps, job), Dropped(steps, job, planning), zone)
  }

  lemma CoveredStep(front: seq<Step>, step: Step, job: string, planning: nat -> Planning, zone: Zones)
    requires Orderly(front + [step], job, zone) && PlannedMoves(front + [step], job, planning, zone)
    requires CoveredBy(front, job, planning, zone)
    ensures CoveredBy(front + [step], job, planning, zone)
  {
    hide Execute, Covered, InForceFrom, Dropped, AppliesPlan, HasRuns, IsPlan, DropsOf;
    var all, s, p := front + [step], Execute(EMPTY, front), planning(|front|);
    var from, dropped := InForceFrom(front, job), Dropped(front, job, planning);
    ExecuteSnoc(EMPTY, front, step);
    InForceSnoc(front, step, job, planning);
    assert all[..|front|] == front && all[|front|] == step && OrderlyStep(all[|front|], job, zone);
    if Moves(s, step, job) {
      AppliedPlanIsCurrent(all, |front|, p, job, zone);
      MoveKeepsCovered(s, step, job, from, dropped, p, zone);
    } else {
      assert dropped + iset{} == dropped;
      if !Enabled(s, step) {
        Disabled(s, step);
      } else if SetsUp(step, job) {
        SetUpCovers(s, step, job, zone);
      } else {
        OtherKeepsCovered(s, step, job, from, dropped, zone);
      }
    }
  }

  lemma Disabled(s: State, step: Step)
    requires !Enabled(s, step)
    ensures Apply(s, step) == s
  {
  }

  /**
   Starts and regular wakes, planned on snapshots and interleaved with reconfigurations and anything
   else schedulers, hosts and users do to the ledger, leave every occurrence of the schedule in force
   behind the cursor with a run, and with one run only, unless the policy of a start has dropped it.
   */
  lemma {:induction false} WakesLeaveNoGap(steps: seq<Step>, job: string, planning: nat -> Planning, zone: Zones)
    requires Orderly(steps, job, zone) && PlannedMoves(steps, job, planning, zone)
    ensures Covered(Execute(EMPTY, steps), job, InForceFrom(steps, job), Dropped(steps, job, planning), zone)
    ensures OneRunPerSlot(Execute(EMPTY, steps))
  {
    InvAlways(EMPTY, steps);
    if steps != [] {
      var front, step := steps[..|steps| - 1], steps[|steps| - 1];
      assert steps == front + [step];
      FrontMoves(front, step, job, planning, zone);
      WakesLeaveNoGap(front, job, planning, zone);
      CoveredStep(front, step, job, planning, zone);
    }
  }

  lemma FrontMoves(front: seq<Step>, step: Step, job: string, planning: nat -> Planning, zone: Zones)
    requires PlannedMoves(front + [step], job, planning, zone)
    ensures PlannedMoves(front, job, planning, zone)
  {
    hide Execute, DueAt, IsPlan, HasRuns, Enabled;
    var all := front + [step];
    forall i: nat | i < |front| && Moves(Execute(EMPTY, front[..i]), front[i], job)
      ensures AppliesPlan(front, i, planning(i), zone)
    {
      var p := planning(i);
      assert all[i] == front[i] && all[..i] == front[..i];
      assert AppliesPlan(all, i, p, zone);
      assert all[p.index..i] == front[p.index..i] && all[..p.index] == front[..p.index];
    }
  }
}
