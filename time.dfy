/**
 * The few Joda-Time operations the hours configuration relies on, as integer
 * arithmetic on milliseconds under one fixed zone offset.
 *
 * Two clocks are used. A day-relative instant counts milliseconds from today's
 * midnight (so tomorrow's midnight is DayMs). A week-relative instant counts
 * milliseconds from Monday 00:00 of the current week (ISO weeks, Monday first).
 */
module Time {

  const SecondMs: int := 1000
  const MinuteMs: int := 60000
  const HourMs: int := 3600000
  const DayMs: int := 86400000
  const WeekMs: int := 604800000

  /** "Now" in the zone of evaluation: ISO day of week (1 = Monday) and milliseconds since that day's midnight. */
  datatype Instant = Instant(dayOfWeek: int, millisOfDay: int) {
    predicate Valid() { 1 <= dayOfWeek <= 7 && 0 <= millisOfDay < DayMs }
  }

  /** A Joda Interval: start and end instants in milliseconds, on one of the two clocks above. */
  datatype Span = Span(start: int, end: int)

  /** DateTime.getHourOfDay. */
  function HourOfDay(t: int): (h: int)
    ensures 0 <= h < 24
  {
    (t % DayMs) / HourMs
  }

  /** DateTime.getMinuteOfHour. */
  function MinuteOfHour(t: int): (m: int)
    ensures 0 <= m < 60
  {
    (t % HourMs) / MinuteMs
  }

  /** DateTime.withTimeAtStartOfDay. */
  function StartOfDay(t: int): int
  {
    t - t % DayMs
  }

  /** The last millisecond of t's day: millisOfDay().withMaximumValue(). */
  function EndOfDay(t: int): int
  {
    StartOfDay(t) + DayMs - 1
  }

  /** DateTime.withDayOfWeek: the same time of day on the given day of t's week. */
  function WithDayOfWeek(t: int, day: int): int
  {
    t - t % WeekMs + (day - 1) * DayMs + t % DayMs
  }

  /** The instant hour:minute on a day-relative clock (withHourOfDay(hour).withMinuteOfHour(minute)). */
  function ClockMs(hour: int, minute: int): int
  {
    (hour * 60 + minute) * MinuteMs
  }

  /** The week-relative instant of the given Instant. */
  function WeekMillis(now: Instant): int
  {
    (now.dayOfWeek - 1) * DayMs + now.millisOfDay
  }

  /** A time of day built from valid clock fields reads back as those fields. */
  lemma ClockFields(hour: int, minute: int)
    requires 0 <= hour < 24 && 0 <= minute < 60
    ensures 0 <= ClockMs(hour, minute) < DayMs && ClockMs(hour, minute) % MinuteMs == 0
    ensures HourOfDay(ClockMs(hour, minute)) == hour
    ensures MinuteOfHour(ClockMs(hour, minute)) == minute
  {
    var t := ClockMs(hour, minute);
    assert t == hour * HourMs + minute * MinuteMs;
    assert t % DayMs == t;
    assert t / HourMs == hour;
    assert t % HourMs == minute * MinuteMs;
  }

  /** A whole-minute time of day is the clock time of its own hour and minute fields. */
  lemma ClockOfFields(t: int)
    requires 0 <= t < DayMs && t % MinuteMs == 0
    ensures t == ClockMs(HourOfDay(t), MinuteOfHour(t))
  {
    var q := t / MinuteMs;
    assert t == q * MinuteMs;
    var h, m := q / 60, q % 60;
    assert q == h * 60 + m;
    assert t == h * HourMs + m * MinuteMs;
    assert t % DayMs == t;
    assert t / HourMs == h;
    assert t % HourMs == m * MinuteMs;
  }

  /** Moving a time of day t on day `from` of this week to day `day` of this week. */
  lemma SameWeekDay(from: int, t: int, day: int)
    requires 1 <= from <= 7 && 1 <= day <= 7 && 0 <= t < DayMs
    ensures WithDayOfWeek((from - 1) * DayMs + t, day) == (day - 1) * DayMs + t
  {
    var x := (from - 1) * DayMs + t;
    assert 0 <= x < WeekMs;
    assert x % WeekMs == x;
    assert x % DayMs == t;
  }

  /** Moving next Monday's midnight (the end of a Sunday) to day `day`: it stays in next week. */
  lemma NextWeekDay(day: int)
    requires 1 <= day <= 7
    ensures WithDayOfWeek(WeekMs, day) == WeekMs + (day - 1) * DayMs
  {
    assert WeekMs % WeekMs == 0;
    assert WeekMs % DayMs == 0;
  }

  /** For a valid now, today starts at (dayOfWeek - 1) days and day `day` of the same week at (day - 1) days. */
  lemma StartOfWeekDay(now: Instant, day: int)
    requires now.Valid() && 1 <= day <= 7
    ensures StartOfDay(WeekMillis(now)) == (now.dayOfWeek - 1) * DayMs
    ensures StartOfDay(WithDayOfWeek(WeekMillis(now), day)) == (day - 1) * DayMs
  {
    SameWeekDay(now.dayOfWeek, now.millisOfDay, day);
    var x := (day - 1) * DayMs + now.millisOfDay;
    assert x % DayMs == now.millisOfDay;
    var y := WeekMillis(now);
    assert y % DayMs == now.millisOfDay;
  }
}
