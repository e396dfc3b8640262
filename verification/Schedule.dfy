/**
 Schedules of packages/automation: which instants a schedule occurs at, and the next one after
 an instant. All instants are epoch milliseconds.
 */
module Schedule {
  import opened Common

  const MAX_SAFE_INTEGER := 0x1F_FFFF_FFFF_FFFF
  const MIN_INTERVAL_MS := 1000
  const MAX_INTERVAL_MS := 365 * 24 * 60 * 60 * 1000
  const CRON_SEARCH_LIMIT_MINUTES := 5 * 366 * 24 * 60
  const MINUTE := 60000

  datatype CronField = CronField(values: set<int>, wildcard: bool)

  datatype Cron = Cron(
    minute: CronField, hour: CronField, dayOfMonth: CronField, month: CronField, dayOfWeek: CronField)

  /** Wall-clock fields of an instant in a time zone. */
  datatype LocalTime = LocalTime(month: int, day: int, hour: int, minute: int, dayOfWeek: int)

  /** The conversion to wall-clock time: zone name and instant. */
  type Zones = (string, int) -> LocalTime

  datatype Schedule =
    | At(at: int)
    | Interval(everyMs: int, anchorMs: int)
    | CronSchedule(cron: Cron, timezone: string)

  datatype ScheduleError = InvalidArgument | NoFuture

  /** A day matches by month day or week day when both fields are restricted, and by the restricted one otherwise. */
  predicate CronMatches(c: Cron, t: LocalTime) {
    && t.minute in c.minute.values && t.hour in c.hour.values && t.month in c.month.values
    && (if c.dayOfMonth.wildcard && c.dayOfWeek.wildcard then true
        else if c.dayOfMonth.wildcard then t.dayOfWeek in c.dayOfWeek.values
        else if c.dayOfWeek.wildcard then t.day in c.dayOfMonth.values
        else t.day in c.dayOfMonth.values || t.dayOfWeek in c.dayOfWeek.values)
  }

  /** What `normalizeSchedule` accepts. */
  predicate Normalized(s: Schedule) {
    match s
    case At(at) => 0 <= at <= MAX_SAFE_INTEGER
    case Interval(every, anchor) =>
      MIN_INTERVAL_MS <= every <= MAX_INTERVAL_MS && 0 <= anchor <= MAX_SAFE_INTEGER
    case CronSchedule(_, _) => true
  }

  /** The `k`-th instant of an interval schedule. */
  function Tick(every: int, anchor: int, k: nat): int {
    anchor + k * every
  }

  /** The first tick is the anchor, and ticks are an interval apart. */
  lemma TicksAreSpaced(every: int, anchor: int, k: nat)
    ensures Tick(every, anchor, 0) == anchor && Tick(every, anchor, k + 1) == Tick(every, anchor, k) + every
  {
  }

  /** The instants of a schedule. */
  ghost predicate Occurs(s: Schedule, zone: Zones, t: int) {
    match s
    case At(at) => t == at
    case Interval(every, anchor) => exists k: nat :: t == Tick(every, anchor, k)
    case CronSchedule(cron, timezone) => t >= 0 && t % MINUTE == 0 && CronMatches(cron, zone(timezone, t))
  }

  /** No occurrence strictly between `a` and `b`. */
  ghost predicate Quiet(s: Schedule, zone: Zones, a: int, b: int) {
    forall t :: a < t < b ==> !Occurs(s, zone, t)
  }

  /** `next` is the first occurrence after `after`, or absent when there is none. */
  ghost predicate IsNext(s: Schedule, zone: Zones, after: int, next: Option<int>) {
    match next
    case Some(t) => t > after && Occurs(s, zone, t) && Quiet(s, zone, after, t)
    case None => forall t :: t > after ==> !Occurs(s, zone, t)
  }

  /** The last instant the search looks at. */
  function Horizon(s: Schedule, after: int): int {
    if s.CronSchedule? then (after / MINUTE + CRON_SEARCH_LIMIT_MINUTES) * MINUTE else MAX_SAFE_INTEGER
  }

  lemma MultiplyMonotone(a: int, b: int, every: int)
    requires a <= b && every > 0
    ensures a * every <= b * every
  {
    assert b * every == a * every + (b - a) * every;
    assert (b - a) * every >= 0;
  }

  /** The last tick up to `after` and the one after it. */
  lemma TickAround(every: int, anchor: int, after: int)
    requires every > 0 && after >= anchor
    ensures var q := (after - anchor) / every;
            q >= 0 && Tick(every, anchor, q) <= after < Tick(every, anchor, q + 1)
  {
    var elapsed := after - anchor;
    var q := elapsed / every;
    assert elapsed == q * every + elapsed % every;
    assert (q + 1) * every == q * every + every;
  }

  /** The anchor arithmetic: no tick lies between the last one up to `after` and the next. */
  lemma NoTickBetween(every: int, anchor: int, after: int, k: nat)
    requires every > 0 && after >= anchor
    ensures var q := (after - anchor) / every;
            q >= 0 && !(after < Tick(every, anchor, k) < Tick(every, anchor, q + 1))
  {
    TickAround(every, anchor, after);
    var q := (after - anchor) / every;
    if k <= q {
      MultiplyMonotone(k, q, every);
    } else {
      MultiplyMonotone(q + 1, k, every);
    }
  }

  method NextInterval(every: int, anchor: int, after: int, ghost zone: Zones) returns (r: Result<Option<int>, ScheduleError>)
    requires Normalized(Interval(every, anchor)) && 0 <= after <= MAX_SAFE_INTEGER
    ensures r.Ok? ==> r.value.Some? && IsNext(Interval(every, anchor), zone, after, r.value)
    ensures r.Err? ==> r.error.NoFuture?
    ensures r.Err? <==> Quiet(Interval(every, anchor), zone, after, MAX_SAFE_INTEGER + 1)
    ensures r.Ok? ==> after < r.value.value && (r.value.value == anchor || anchor < r.value.value <= after + every)
  {
    ghost var s := Interval(every, anchor);
    if after < anchor {
      assert anchor == Tick(every, anchor, 0);
      assert Occurs(s, zone, anchor);
      return Ok(Some(anchor));
    }
    var steps := (after - anchor) / every + 1;
    var result := anchor + steps * every;
    TickAround(every, anchor, after);
    assert result == Tick(every, anchor, steps);
    assert Occurs(s, zone, result);
    assert Quiet(s, zone, after, result) by {
      forall t | after < t < result
        ensures !Occurs(s, zone, t)
      {
        if k: nat :| t == Tick(every, anchor, k) {
          NoTickBetween(every, anchor, after, k);
        }
      }
    }
    if result > MAX_SAFE_INTEGER {
      return Err(NoFuture);
    }
    return Ok(Some(result));
  }

  /** The wall clock of the `m`-th minute since the epoch matches. */
  predicate MatchesMinute(cron: Cron, timezone: string, zone: Zones, m: int) {
    CronMatches(cron, zone(timezone, m * 60000))
  }

  method NextCron(cron: Cron, timezone: string, zone: Zones, after: int) returns (r: Result<Option<int>, ScheduleError>)
    requires after >= 0
    ensures r.Ok? ==> r.value.Some? && IsNext(CronSchedule(cron, timezone), zone, after, r.value)
    ensures r.Err? ==> r.error.NoFuture?
    ensures r.Err? <==> Quiet(CronSchedule(cron, timezone), zone, after, Horizon(CronSchedule(cron, timezone), after) + 1)
    // in minutes: the first matching one after the current, or none in five years of 366 days
    ensures r.Ok? ==>
              var m := r.value.value / 60000;
              && r.value.value == m * 60000 && after / 60000 < m <= after / 60000 + 2635200 && MatchesMinute(cron, timezone, zone, m)
              && forall k :: after / 60000 < k < m ==> !MatchesMinute(cron, timezone, zone, k)
    ensures r.Err? <==> forall k :: after / 60000 < k <= after / 60000 + 2635200 ==> !MatchesMinute(cron, timezone, zone, k)
  {
    ghost var s := CronSchedule(cron, timezone);
    var candidate := after / MINUTE * MINUTE + MINUTE;
    for index := 0 to CRON_SEARCH_LIMIT_MINUTES
      invariant candidate == (after / MINUTE + 1 + index) * MINUTE
      invariant candidate > after
      invariant Quiet(s, zone, after, candidate)
      invariant forall k :: after / MINUTE < k < after / MINUTE + 1 + index ==> !MatchesMinute(cron, timezone, zone, k)
    {
      assert MatchesMinute(cron, timezone, zone, after / MINUTE + 1 + index) == CronMatches(cron, zone(timezone, candidate));
      if CronMatches(cron, zone(timezone, candidate)) {
        assert Occurs(s, zone, candidate);
        return Ok(Some(candidate));
      }
      candidate := candidate + MINUTE;
    }
    return Err(NoFuture);
  }

  /** There is no next occurrence to compute after `t`: a bad argument, or an empty search horizon. */
  ghost predicate Unschedulable(s: Schedule, zone: Zones, t: int) {
    || !(0 <= t <= MAX_SAFE_INTEGER && Normalized(s))
    || (!s.At? && Quiet(s, zone, t, Horizon(s, t) + 1))
  }

  /** `computeNextScheduledFor`: the first occurrence after `after`. */
  method ComputeNext(s: Schedule, zone: Zones, after: int) returns (r: Result<Option<int>, ScheduleError>)
    ensures r.Ok? ==> IsNext(s, zone, after, r.value)
    ensures r.Ok? && r.value.None? ==> s.At?
    ensures r.Ok? && s.At? ==> r.value == if s.at > after then Some(s.at) else None
    ensures r.Ok? && s.Interval? ==>
              after < r.value.value && (r.value.value == s.anchorMs || s.anchorMs < r.value.value <= after + s.everyMs)
    ensures r.Ok? && s.CronSchedule? ==>
              after < r.value.value && r.value.value % 60000 == 0 && CronMatches(s.cron, zone(s.timezone, r.value.value))
    ensures r == Err(InvalidArgument) <==>
              || !(0 <= after <= 9007199254740991)
              || (s.At? && !(0 <= s.at <= 9007199254740991))
              || (s.Interval? && !(1000 <= s.everyMs <= 31536000000 && 0 <= s.anchorMs <= 9007199254740991))
    ensures r.Err? <==> Unschedulable(s, zone, after)
  {
    if !(0 <= after <= MAX_SAFE_INTEGER && Normalized(s)) {
      return Err(InvalidArgument);
    }
    match s
    case At(at) => r := Ok(if at > after then Some(at) else None);
    case Interval(every, anchor) => r := NextInterval(every, anchor, after, zone);
    case CronSchedule(cron, timezone) => r := NextCron(cron, timezone, zone, after);
  }
}
