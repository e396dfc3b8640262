/**
 What the scheduler of packages/automation materializes for a due job: the startup catch-up
 policies and the regular plan.
 */
module CatchUp {
  import opened Common
  import opened Schedule

  datatype Policy = SkipMissed | RunOnce | Bounded(limit: nat)

  /** Occurrences to queue and to skip, the new cursor, and the new `last` column if it is written. */
  datatype Plan = Plan(pending: seq<int>, skipped: seq<int>, next: Option<int>, last: Option<int>)

  /** Ascending occurrences with none left out in between. */
  ghost predicate Consecutive(s: Schedule, zone: Zones, ts: seq<int>) {
    && (forall i :: 0 < i < |ts| ==> ts[i - 1] < ts[i] && Occurs(s, zone, ts[i]))
    && forall i :: 0 < i < |ts| ==> Quiet(s, zone, ts[i - 1], ts[i])
  }

  /** The first missed occurrences from the cursor on, at most `limit` of them. */
  ghost predicate Missed(s: Schedule, zone: Zones, first: int, limit: nat, now: int, ts: seq<int>) {
    && 1 <= |ts| <= limit && ts[0] == first
    && Consecutive(s, zone, ts)
    && forall i :: 0 <= i < |ts| ==> ts[i] <= now
  }

  /** All missed occurrences, or as many as the limit allows. */
  ghost predicate OldestMissed(s: Schedule, zone: Zones, first: int, limit: nat, now: int, ts: seq<int>) {
    && Missed(s, zone, first, limit, now, ts)
    && (|ts| < limit ==> Quiet(s, zone, ts[|ts| - 1], now + 1))
  }

  predicate Due(cursor: Option<int>, now: int) {
    cursor.Some? && cursor.value <= now
  }

  /**
   The startup plan for a cursor. Whatever the policy, no backlog is left: a due cursor becomes
   the first occurrence after now.
   */
  ghost predicate IsStartupPlan(s: Schedule, zone: Zones, cursor: Option<int>, policy: Policy, now: int, plan: Plan) {
    if !Due(cursor, now) then plan == Plan([], [], cursor, None)
    else
      && IsNext(s, zone, now, plan.next)
      && match policy
         case SkipMissed => plan.pending == [] && plan.skipped == [cursor.value] && plan.last == cursor
         case RunOnce => plan.pending == [cursor.value] && plan.skipped == [] && plan.last.None?
         case Bounded(limit) =>
           plan.skipped == [] && plan.last.None? && OldestMissed(s, zone, cursor.value, limit, now, plan.pending)
  }

  /** The regular plan: the occurrence at the cursor is queued and the cursor moves to the one after it. */
  ghost predicate IsRegularPlan(s: Schedule, zone: Zones, cursor: Option<int>, plan: Plan) {
    if cursor.None? then plan == Plan([], [], None, None)
    else plan.pending == [cursor.value] && plan.skipped == [] && plan.last.None? && IsNext(s, zone, cursor.value, plan.next)
  }

  predicate Plans(plan: Plan, t: int) {
    t in plan.pending || t in plan.skipped
  }

  /** The plan drops what is overdue after everything it queues or skips; the bounded policy only once its limit is reached. */
  ghost predicate Drops(plan: Plan, policy: Policy, now: int, t: int) {
    && t <= now && (forall u :: Plans(plan, u) ==> u < t)
    && (policy.Bounded? ==> |plan.pending| == policy.limit)
  }

  /** When planning a due cursor raises: an occurrence after an instant the policy asks about does not exist. */
  ghost predicate StartupRaises(s: Schedule, zone: Zones, first: int, policy: Policy, now: int) {
    if policy.Bounded? then exists ts :: Missed(s, zone, first, policy.limit, now, ts) && RaisesAfter(s, zone, policy.limit, now, ts)
    else Unschedulable(s, zone, now)
  }

  /** The bounded policy asks after each queued occurrence, and after now when the limit leaves some behind. */
  ghost predicate RaisesAfter(s: Schedule, zone: Zones, limit: nat, now: int, ts: seq<int>) {
    ts != [] &&
    (|| Unschedulable(s, zone, ts[|ts| - 1])
     || (|ts| == limit && !Quiet(s, zone, ts[|ts| - 1], now + 1) && Unschedulable(s, zone, now)))
  }

  ghost predicate LatestMissed(s: Schedule, zone: Zones, t: int, now: int) {
    Occurs(s, zone, t) && t <= now && Quiet(s, zone, t, now + 1)
  }

  lemma NextIsUnique(s: Schedule, zone: Zones, after: int, a: Option<int>, b: Option<int>)
    requires IsNext(s, zone, after, a) && IsNext(s, zone, after, b)
    ensures a == b
  {
  }

  /** A cursor found past `now` by stepping from an earlier occurrence is the next one after `now`. */
  lemma NextSkipsQuiet(s: Schedule, zone: Zones, t: int, now: int, next: Option<int>)
    requires t <= now && IsNext(s, zone, t, next)
    ensures Quiet(s, zone, t, now + 1) <==> (next.Some? ==> next.value > now)
    ensures (next.Some? ==> next.value > now) ==> IsNext(s, zone, now, next)
  {
  }

  /** Any list of first missed occurrences is a prefix of the oldest missed ones. */
  lemma {:induction false} MissedIsPrefix(s: Schedule, zone: Zones, first: int, limit: nat, now: int, ts: seq<int>, all: seq<int>)
    requires Missed(s, zone, first, limit, now, ts) && OldestMissed(s, zone, first, limit, now, all)
    ensures ts <= all
  {
    if |ts| > 1 {
      var n := |ts| - 1;
      MissedIsPrefix(s, zone, first, limit, now, ts[..n], all);
      assert ts[..n] == all[..n];
      assert ts[n - 1] == ts[..n][n - 1] == all[n - 1];
      assert ts[n - 1] < ts[n] <= now && Occurs(s, zone, ts[n]) && Quiet(s, zone, ts[n - 1], ts[n]);
      assert n < |all|;
      assert all[n - 1] < all[n] && Occurs(s, zone, all[n]) && Quiet(s, zone, all[n - 1], all[n]);
      assert ts[n] == all[n];
    }
  }

  /** The description leaves no choice: there is one startup plan. */
  lemma StartupPlanIsUnique(s: Schedule, zone: Zones, cursor: Option<int>, policy: Policy, now: int, p: Plan, q: Plan)
    requires IsStartupPlan(s, zone, cursor, policy, now, p) && IsStartupPlan(s, zone, cursor, policy, now, q)
    ensures p == q
  {
    if Due(cursor, now) {
      NextIsUnique(s, zone, now, p.next, q.next);
      if policy.Bounded? {
        MissedIsPrefix(s, zone, cursor.value, policy.limit, now, p.pending, q.pending);
        MissedIsPrefix(s, zone, cursor.value, policy.limit, now, q.pending, p.pending);
      }
    }
  }

  /** A gapless list holds every occurrence from its first to its last. */
  lemma {:induction false} ConsecutiveHolds(s: Schedule, zone: Zones, ts: seq<int>, t: int)
    requires ts != [] && Consecutive(s, zone, ts)
    requires ts[0] <= t <= ts[|ts| - 1] && Occurs(s, zone, t)
    ensures t in ts
  {
    hide Occurs;
    if |ts| > 1 && t < ts[|ts| - 1] {
      var n := |ts| - 1;
      assert Quiet(s, zone, ts[n - 1], ts[n]);
      assert t <= ts[n - 1];
      ConsecutiveHolds(s, zone, ts[..n], t);
    }
  }

  /** A startup plan queues, skips or drops every occurrence from the cursor to now. */
  lemma StartupAccountsForAll(s: Schedule, zone: Zones, first: int, policy: Policy, now: int, plan: Plan, t: int)
    requires IsStartupPlan(s, zone, Some(first), policy, now, plan)
    requires first <= t <= now && Occurs(s, zone, t)
    ensures Plans(plan, t) || Drops(plan, policy, now, t)
  {
    hide Occurs;
    if policy.Bounded? {
      var ts := plan.pending;
      if t <= ts[|ts| - 1] {
        ConsecutiveHolds(s, zone, ts, t);
      } else {
        LastIsLargest(s, zone, ts);
        assert |ts| < policy.limit ==> Quiet(s, zone, ts[|ts| - 1], now + 1);
      }
    }
  }

  lemma {:induction false} LastIsLargest(s: Schedule, zone: Zones, ts: seq<int>)
    requires ts != [] && Consecutive(s, zone, ts)
    ensures forall u :: u in ts ==> u <= ts[|ts| - 1]
  {
    hide Occurs, Quiet;
    if |ts| > 1 {
      var n := |ts| - 1;
      LastIsLargest(s, zone, ts[..n]);
      assert ts == ts[..n] + [ts[n]];
    }
  }

  /** `startupPlan`: a due cursor is caught up under the policy of the job. */
  method StartupPlan(s: Schedule, zone: Zones, cursor: Option<int>, policy: Policy, now: int)
    returns (r: Result<Plan, ScheduleError>)
    requires policy.Bounded? ==> policy.limit >= 1
    ensures r.Ok? ==> IsStartupPlan(s, zone, cursor, policy, now, r.value)
    ensures r.Err? <==> Due(cursor, now) && StartupRaises(s, zone, cursor.value, policy, now)
    // the one occurrence RUN_ONCE queues is the latest missed one exactly when the one after it is not due
    ensures r.Ok? && Due(cursor, now) && policy.RunOnce? && Occurs(s, zone, cursor.value) ==>
              forall after :: IsNext(s, zone, cursor.value, after) ==>
                (LatestMissed(s, zone, r.value.pending[0], now) <==> !Due(after, now))
  {
    if !Due(cursor, now) {
      return Ok(Plan([], [], cursor, None));
    }
    var first := cursor.value;
    if policy.Bounded? {
      r := BoundedPlan(s, zone, first, policy.limit, now);
      return;
    }
    forall after | IsNext(s, zone, first, after)
      ensures Quiet(s, zone, first, now + 1) <==> !Due(after, now)
    {
      NextSkipsQuiet(s, zone, first, now, after);
    }
    hide Unschedulable, IsNext, Occurs, Quiet;
    var next := ComputeNext(s, zone, now);
    if next.Err? {
      return Err(next.error);
    }
    return Ok(if policy.SkipMissed? then Plan([], [first], next.value, Some(first))
              else Plan([first], [], next.value, None));
  }

  /** The loop of the bounded policy. */
  method BoundedPlan(s: Schedule, zone: Zones, first: int, limit: nat, now: int)
    returns (r: Result<Plan, ScheduleError>)
    requires first <= now && limit >= 1
    ensures r.Ok? ==> IsStartupPlan(s, zone, Some(first), Bounded(limit), now, r.value)
    ensures r.Err? <==> StartupRaises(s, zone, first, Bounded(limit), now)
  {
    hide Occurs, Quiet, Unschedulable;
    var pending: seq<int> := [];
    var at := Some(first);
    while at.Some? && at.value <= now && |pending| < limit
      invariant |pending| <= limit
      invariant pending == [] ==> at == Some(first)
      invariant pending != [] ==> Missed(s, zone, first, limit, now, pending) && IsNext(s, zone, pending[|pending| - 1], at)
      invariant forall i :: 0 <= i < |pending| ==> !Unschedulable(s, zone, pending[i])
      decreases limit - |pending|
    {
      assert Missed(s, zone, first, limit, now, pending + [at.value]);
      var next := ComputeNext(s, zone, at.value);
      if next.Err? {
        assert RaisesAfter(s, zone, limit, now, pending + [at.value]);
        return Err(next.error);
      }
      pending := pending + [at.value];
      at := next.value;
    }
    NextSkipsQuiet(s, zone, pending[|pending| - 1], now, at);
    var cursor := at;
    if at.Some? && at.value <= now {
      var next := ComputeNext(s, zone, now);
      if next.Err? {
        assert RaisesAfter(s, zone, limit, now, pending);
        return Err(next.error);
      }
      cursor := next.value;
    }
    forall ts | Missed(s, zone, first, limit, now, ts)
      ensures !RaisesAfter(s, zone, limit, now, ts)
    {
      MissedIsPrefix(s, zone, first, limit, now, ts, pending);
      assert ts[|ts| - 1] == pending[|ts| - 1];
    }
    return Ok(Plan(pending, [], cursor, None));
  }

  /** `regularPlan`: one occurrence per wake, and the cursor moves to the one after it. */
  method RegularPlan(s: Schedule, zone: Zones, cursor: Option<int>) returns (r: Result<Plan, ScheduleError>)
    ensures r.Ok? ==> IsRegularPlan(s, zone, cursor, r.value)
    ensures r.Err? <==> cursor.Some? && Unschedulable(s, zone, cursor.value)
  {
    if cursor.None? {
      return Ok(Plan([], [], None, None));
    }
    var next := ComputeNext(s, zone, cursor.value);
    if next.Err? {
      return Err(next.error);
    }
    return Ok(Plan([cursor.value], [], next.value, None));
  }

  /** Every five minutes from 0; the cursor at 0 and the clock at 15 minutes: RUN_ONCE queues the oldest of four. */
  lemma RunOnceRunsOldest(zone: Zones)
    ensures var s := Interval(5 * MINUTE, 0);
            && IsStartupPlan(s, zone, Some(0), RunOnce, 15 * MINUTE, Plan([0], [], Some(20 * MINUTE), None))
            && Occurs(s, zone, 0) && !LatestMissed(s, zone, 0, 15 * MINUTE)
            && LatestMissed(s, zone, 15 * MINUTE, 15 * MINUTE)
  {
    var s := Interval(5 * MINUTE, 0);
    assert Tick(5 * MINUTE, 0, 0) == 0 && Tick(5 * MINUTE, 0, 3) == 15 * MINUTE && Tick(5 * MINUTE, 0, 4) == 20 * MINUTE;
    assert Occurs(s, zone, 15 * MINUTE) && Occurs(s, zone, 20 * MINUTE);
    forall t | 15 * MINUTE < t < 20 * MINUTE
      ensures !Occurs(s, zone, t)
    {
      if k: nat :| t == Tick(5 * MINUTE, 0, k) {
        NoTickBetween(5 * MINUTE, 0, 15 * MINUTE, k);
      }
    }
  }
}
