/**
 What a cron expression means, as laws between schedules: a field with one value, a field split into
 two, and the two day fields, of which either one is enough when both are restricted.
 */
module CronLaws {
  import opened Common
  import opened Schedule

  // ----- schedules made of others

  /** The occurrences of `s` are those of `a` and those of `b`. */
  ghost predicate IsUnion(s: Schedule, a: Schedule, b: Schedule, zone: Zones) {
    forall t :: Occurs(s, zone, t) <==> Occurs(a, zone, t) || Occurs(b, zone, t)
  }

  function Earlier(a: Option<int>, b: Option<int>): Option<int> {
    if a.None? then b else if b.None? then a else if a.value <= b.value then a else b
  }

  /** The next occurrence of a union is the earlier one of the two. */
  lemma NextOfUnion(s: Schedule, a: Schedule, b: Schedule, zone: Zones, after: int, nextA: Option<int>, nextB: Option<int>)
    requires IsUnion(s, a, b, zone) && IsNext(a, zone, after, nextA) && IsNext(b, zone, after, nextB)
    ensures IsNext(s, zone, after, Earlier(nextA, nextB))
  {
    hide Occurs;
  }

  // ----- one value in a field

  function Only(x: int): CronField {
    CronField({x}, false)
  }

  function Every(values: set<int>): CronField {
    CronField(values, true)
  }

  /** With one value in minute, hour and month and any day, the full minutes whose wall clock shows these values. */
  lemma SingleMinute(minute: int, hour: int, month: int, days: set<int>, weekdays: set<int>, timezone: string, zone: Zones, t: int)
    ensures Occurs(CronSchedule(Cron(Only(minute), Only(hour), Every(days), Only(month), Every(weekdays)), timezone), zone, t)
       <==> t >= 0 && t % 60000 == 0
            && zone(timezone, t).minute == minute && zone(timezone, t).hour == hour && zone(timezone, t).month == month
  {
  }

  /** A single day of the month, or a single day of the week, selects that day. */
  lemma SingleDay(c: Cron, day: int, timezone: string, zone: Zones, t: int)
    requires c.dayOfMonth.wildcard && c.dayOfWeek.wildcard
    ensures Occurs(CronSchedule(c.(dayOfMonth := Only(day)), timezone), zone, t)
       <==> Occurs(CronSchedule(c, timezone), zone, t) && zone(timezone, t).day == day
    ensures Occurs(CronSchedule(c.(dayOfWeek := Only(day)), timezone), zone, t)
       <==> Occurs(CronSchedule(c, timezone), zone, t) && zone(timezone, t).dayOfWeek == day
  {
  }

  // ----- a field split in two

  function Joined(a: CronField, b: CronField): CronField {
    CronField(a.values + b.values, a.wildcard)
  }

  /** Splitting the values of a field splits the occurrences; a day field must be the one that counts. */
  lemma SplitField(c: Cron, a: CronField, b: CronField, timezone: string, zone: Zones)
    requires a.wildcard == b.wildcard
    ensures IsUnion(CronSchedule(c.(minute := Joined(a, b)), timezone), CronSchedule(c.(minute := a), timezone),
                    CronSchedule(c.(minute := b), timezone), zone)
    ensures IsUnion(CronSchedule(c.(hour := Joined(a, b)), timezone), CronSchedule(c.(hour := a), timezone),
                    CronSchedule(c.(hour := b), timezone), zone)
    ensures IsUnion(CronSchedule(c.(month := Joined(a, b)), timezone), CronSchedule(c.(month := a), timezone),
                    CronSchedule(c.(month := b), timezone), zone)
    ensures IsUnion(CronSchedule(c.(dayOfMonth := Joined(a, b)), timezone), CronSchedule(c.(dayOfMonth := a), timezone),
                    CronSchedule(c.(dayOfMonth := b), timezone), zone)
    ensures IsUnion(CronSchedule(c.(dayOfWeek := Joined(a, b)), timezone), CronSchedule(c.(dayOfWeek := a), timezone),
                    CronSchedule(c.(dayOfWeek := b), timezone), zone)
  {
  }

  /** A field without values has no occurrence, except a day field that does not count. */
  lemma EmptyField(c: Cron, timezone: string, zone: Zones, t: int)
    requires || c.minute.values == {} || c.hour.values == {} || c.month.values == {}
             || (!c.dayOfMonth.wildcard && c.dayOfMonth.values == {} && (c.dayOfWeek.wildcard || c.dayOfWeek.values == {}))
             || (!c.dayOfWeek.wildcard && c.dayOfWeek.values == {} && (c.dayOfMonth.wildcard || c.dayOfMonth.values == {}))
    ensures !Occurs(CronSchedule(c, timezone), zone, t)
  {
  }

  // ----- the two day fields

  /** The day of the month alone decides, or the day of the week alone. */
  function ByMonthDay(c: Cron): Cron {
    c.(dayOfWeek := Every({}))
  }

  function ByWeekDay(c: Cron): Cron {
    c.(dayOfMonth := Every({}))
  }

  /** With both day fields restricted, either one is enough. */
  lemma EitherDay(c: Cron, timezone: string, zone: Zones)
    requires !c.dayOfMonth.wildcard && !c.dayOfWeek.wildcard
    ensures IsUnion(CronSchedule(c, timezone), CronSchedule(ByMonthDay(c), timezone), CronSchedule(ByWeekDay(c), timezone), zone)
  {
  }

  /** So the next occurrence is the earlier of the next by month day and the next by week day. */
  lemma NextByEitherDay(c: Cron, timezone: string, zone: Zones, after: int, byMonth: Option<int>, byWeek: Option<int>)
    requires !c.dayOfMonth.wildcard && !c.dayOfWeek.wildcard
    requires IsNext(CronSchedule(ByMonthDay(c), timezone), zone, after, byMonth)
    requires IsNext(CronSchedule(ByWeekDay(c), timezone), zone, after, byWeek)
    ensures IsNext(CronSchedule(c, timezone), zone, after, Earlier(byMonth, byWeek))
  {
    hide IsNext, Occurs;
    EitherDay(c, timezone, zone);
    NextOfUnion(CronSchedule(c, timezone), CronSchedule(ByMonthDay(c), timezone), CronSchedule(ByWeekDay(c), timezone),
                zone, after, byMonth, byWeek);
  }

  /** The values of a wildcard day field do not matter, whatever the other one is. */
  lemma WildcardValuesIgnored(c: Cron, values: set<int>, timezone: string, zone: Zones, t: int)
    ensures c.dayOfMonth.wildcard ==>
              (Occurs(CronSchedule(c, timezone), zone, t) <==> Occurs(CronSchedule(c.(dayOfMonth := Every(values)), timezone), zone, t))
    ensures c.dayOfWeek.wildcard ==>
              (Occurs(CronSchedule(c, timezone), zone, t) <==> Occurs(CronSchedule(c.(dayOfWeek := Every(values)), timezone), zone, t))
  {
  }

  /** `0 0 1 * 1` occurs on the first of a month whatever the week day, on any Monday, and on no other day. */
  lemma FirstOrMonday(timezone: string, zone: Zones, t: int, months: set<int>)
    requires t >= 0 && t % 60000 == 0 && zone(timezone, t).minute == 0 && zone(timezone, t).hour == 0
    requires zone(timezone, t).month in months
    ensures Occurs(CronSchedule(Cron(Only(0), Only(0), Only(1), Every(months), Only(1)), timezone), zone, t)
       <==> zone(timezone, t).day == 1 || zone(timezone, t).dayOfWeek == 1
  {
  }
}
