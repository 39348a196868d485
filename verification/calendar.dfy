/** Time and the few calendar operations the app uses.

    An instant is a whole number of seconds since the reference date
    2001-01-01 00:00:00 UTC (the epoch of Foundation's `Date`).  The calendar
    is a time zone with a fixed offset from UTC, so "hour of day" and "start
    of day" are plain arithmetic. */
module Calendar {

  type Instant = int

  const SecondsPerMinute: int := 60
  const SecondsPerHour: int := 3600
  const SecondsPerDay: int := 86400

  /** `Date.distantPast`: 0001-01-01 00:00:00 UTC, a whole number of days
      before the reference date. */
  const DistantPast: Instant := -63114076800

  /** A time zone, as its offset east of UTC in seconds. */
  datatype TimeZone = TimeZone(offset: int)

  /** Seconds elapsed since local midnight. */
  function SecondOfDay(tz: TimeZone, t: Instant): (s: int)
    ensures 0 <= s < SecondsPerDay
  {
    (t + tz.offset) % SecondsPerDay
  }

  /** The hour component of `t` in `tz` (`dateComponents([.hour], from: t)`). */
  function HourOf(tz: TimeZone, t: Instant): (h: int)
    ensures 0 <= h < 24
    ensures h * SecondsPerHour <= SecondOfDay(tz, t) < (h + 1) * SecondsPerHour
  {
    SecondOfDay(tz, t) / SecondsPerHour
  }

  /** `calendar.startOfDay(for: t)`: local midnight of the day holding `t`. */
  function StartOfDay(tz: TimeZone, t: Instant): (s: Instant)
    ensures s <= t < s + SecondsPerDay
    ensures SecondOfDay(tz, s) == 0
  {
    var k := (t + tz.offset) / SecondsPerDay;
    assert t + tz.offset == k * SecondsPerDay + SecondOfDay(tz, t);
    assert t - SecondOfDay(tz, t) + tz.offset == k * SecondsPerDay;
    MultipleOfDay(k);
    t - SecondOfDay(tz, t)
  }

  /** `calendar.date(from: DateComponents(hour: h))`: hour `h` of the first
      day of year 1 in local time. */
  function DateFromHour(tz: TimeZone, h: int): (t: Instant)
    requires 0 <= h < 24
    ensures HourOf(tz, t) == h
  {
    var t := DistantPast + h * SecondsPerHour - tz.offset;
    assert t + tz.offset == -730487 * SecondsPerDay + h * SecondsPerHour;
    ShiftedByDays(-730487, h * SecondsPerHour);
    t
  }

  lemma MultipleOfDay(k: int)
    ensures (k * SecondsPerDay) % SecondsPerDay == 0
  {
    ShiftedByDays(k, 0);
  }

  /** Moving by whole days does not change the time of day. */
  lemma ShiftedByDays(k: int, r: int)
    requires 0 <= r < SecondsPerDay
    ensures (k * SecondsPerDay + r) % SecondsPerDay == r
  {
    var x := k * SecondsPerDay + r;
    var q := x / SecondsPerDay;
    assert x == q * SecondsPerDay + x % SecondsPerDay;
    assert (k - q) * SecondsPerDay == x % SecondsPerDay - r;
  }

  /** Adding 12 hours to local midnight lands on hour 12 of the same day. */
  lemma NoonAfterMidnight(tz: TimeZone, midnight: Instant)
    requires SecondOfDay(tz, midnight) == 0
    ensures HourOf(tz, midnight + 12 * SecondsPerHour) == 12
  {
    var k := (midnight + tz.offset) / SecondsPerDay;
    assert midnight + tz.offset == k * SecondsPerDay;
    ShiftedByDays(k, 12 * SecondsPerHour);
  }

  /** Adding 12 hours to an instant at hour `h` < 12 lands on hour `h` + 12. */
  lemma TwelveHoursLater(tz: TimeZone, t: Instant)
    requires HourOf(tz, t) < 12
    ensures HourOf(tz, t + 12 * SecondsPerHour) == HourOf(tz, t) + 12
  {
    var k := (t + tz.offset) / SecondsPerDay;
    var r := SecondOfDay(tz, t);
    assert t + tz.offset == k * SecondsPerDay + r;
    ShiftedByDays(k, r + 12 * SecondsPerHour);
  }
}
