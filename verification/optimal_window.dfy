/** The optimal ventilation window (`calculateOptimalWindow`) and the
    humidity figures derived from a window.

    The selector keeps the forecast hours whose hour of day lies between the
    hour of the home-hours start and the hour of the home-hours end (both
    inclusive, minutes ignored), takes one with the least humidity, and
    opens a two-hour window at its date. */
module OptimalWindow {
  import opened Wrappers
  import opened Calendar
  import opened Models

  /** The user's home hours; only the hour of each end is used. */
  datatype HomeHours = HomeHours(start: Instant, end: Instant)

  datatype Window = Window(start: Instant, end: Instant)

  const WindowLength: int := 2 * SecondsPerHour

  predicate InHomeHours(tz: TimeZone, home: HomeHours, p: HourlyHumidity) {
    HourOf(tz, home.start) <= HourOf(tz, p.date) <= HourOf(tz, home.end)
  }

  /** The `filter` step: the hours inside the home hours, in series order. */
  function RelevantHours(tz: TimeZone, home: HomeHours, hourly: seq<HourlyHumidity>): (r: seq<HourlyHumidity>)
    ensures forall p :: p in r <==> p in hourly && InHomeHours(tz, home, p)
    ensures |r| <= |hourly|
  {
    if |hourly| == 0 then []
    else (if InHomeHours(tz, home, hourly[0]) then [hourly[0]] else []) + RelevantHours(tz, home, hourly[1..])
  }

  /** Index of the first point with the least humidity: the head of the
      series after a stable ascending sort by humidity. */
  function FirstMinimum(points: seq<HourlyHumidity>): (i: nat)
    requires |points| > 0
    ensures i < |points|
    ensures forall j :: 0 <= j < |points| ==> points[i].humidity <= points[j].humidity
    ensures forall j :: 0 <= j < i ==> points[j].humidity > points[i].humidity
  {
    if |points| == 1 then 0
    else
      var k := FirstMinimum(points[1..]) + 1;
      if points[k].humidity < points[0].humidity then k else 0
  }

  /** `calculateOptimalWindow(hourly:homeHours:)` */
  function CalculateOptimalWindow(tz: TimeZone, hourly: seq<HourlyHumidity>, home: HomeHours): (w: Option<Window>)
    ensures w.None? <==> forall p :: p in hourly ==> !InHomeHours(tz, home, p)
    ensures HourOf(tz, home.start) > HourOf(tz, home.end) ==> w.None?
    ensures w.Some? ==> w.value.end == w.value.start + WindowLength
    ensures w.Some? ==>
              exists p :: && p in hourly && InHomeHours(tz, home, p) && p.date == w.value.start
                          && forall q :: q in hourly && InHomeHours(tz, home, q) ==> p.humidity <= q.humidity
  {
    var relevant := RelevantHours(tz, home, hourly);
    assert |relevant| > 0 ==> relevant[0] in relevant;
    WindowAtLeast(relevant)
  }

  /** The two-hour window opened at the first hour with the least humidity,
      or none when there is no hour. */
  function WindowAtLeast(relevant: seq<HourlyHumidity>): (w: Option<Window>)
    ensures w.None? <==> |relevant| == 0
    ensures w.Some? ==> w.value.end == w.value.start + WindowLength
    ensures w.Some? ==>
              exists p :: && p in relevant && p.date == w.value.start
                          && forall q :: q in relevant ==> p.humidity <= q.humidity
  {
    if |relevant| == 0 then None
    else
      var best := relevant[FirstMinimum(relevant)];
      assert forall q :: q in relevant ==> best.humidity <= q.humidity;
      Some(Window(best.date, best.date + WindowLength))
  }

  lemma {:induction false} RelevantAppend(tz: TimeZone, home: HomeHours, a: seq<HourlyHumidity>, b: seq<HourlyHumidity>)
    ensures RelevantHours(tz, home, a + b) == RelevantHours(tz, home, a) + RelevantHours(tz, home, b)
  {
    if |a| == 0 {
      assert a + b == b;
    } else {
      assert (a + b)[1..] == a[1..] + b;
      RelevantAppend(tz, home, a[1..], b);
    }
  }

  /** The window depends on the series only through its in-range hours. */
  lemma SameRelevantSameWindow(tz: TimeZone, home: HomeHours, x: seq<HourlyHumidity>, y: seq<HourlyHumidity>)
    requires RelevantHours(tz, home, x) == RelevantHours(tz, home, y)
    ensures CalculateOptimalWindow(tz, x, home) == CalculateOptimalWindow(tz, y, home)
  {
  }

  /** An hour outside the home hours, wherever it sits in the series, never
      changes the window. */
  lemma OutOfRangeIrrelevant(tz: TimeZone, home: HomeHours, a: seq<HourlyHumidity>, p: HourlyHumidity, b: seq<HourlyHumidity>)
    requires !InHomeHours(tz, home, p)
    ensures CalculateOptimalWindow(tz, a + [p] + b, home) == CalculateOptimalWindow(tz, a + b, home)
  {
    RelevantSkipsOutOfRange(tz, home, a, p, b);
    SameRelevantSameWindow(tz, home, a + [p] + b, a + b);
  }

  /** The filter drops an out-of-range hour wherever it sits. */
  lemma RelevantSkipsOutOfRange(tz: TimeZone, home: HomeHours, a: seq<HourlyHumidity>, p: HourlyHumidity, b: seq<HourlyHumidity>)
    requires !InHomeHours(tz, home, p)
    ensures RelevantHours(tz, home, a + [p] + b) == RelevantHours(tz, home, a + b)
  {
    RelevantAppend(tz, home, a + [p], b);
    RelevantAppend(tz, home, a, [p]);
    RelevantAppend(tz, home, a, b);
    assert [p][1..] == [];
    assert RelevantHours(tz, home, [p]) == [];
  }

  lemma {:induction false} RelevantIdempotent(tz: TimeZone, home: HomeHours, hourly: seq<HourlyHumidity>)
    ensures RelevantHours(tz, home, RelevantHours(tz, home, hourly)) == RelevantHours(tz, home, hourly)
  {
    if |hourly| > 0 {
      var head := if InHomeHours(tz, home, hourly[0]) then [hourly[0]] else [];
      RelevantIdempotent(tz, home, hourly[1..]);
      RelevantAppend(tz, home, head, RelevantHours(tz, home, hourly[1..]));
      if InHomeHours(tz, home, hourly[0]) {
        assert RelevantHours(tz, home, head) == head by {
          assert head[1..] == [];
        }
      }
    }
  }

  /** Selecting from the in-range hours alone gives the same window as
      selecting from the whole series. */
  lemma SelectFromRelevantOnly(tz: TimeZone, home: HomeHours, hourly: seq<HourlyHumidity>)
    ensures CalculateOptimalWindow(tz, RelevantHours(tz, home, hourly), home) == CalculateOptimalWindow(tz, hourly, home)
  {
    RelevantIdempotent(tz, home, hourly);
    SameRelevantSameWindow(tz, home, RelevantHours(tz, home, hourly), hourly);
  }

  /** Only the hour of each home-hours end matters: two home-hours values
      with the same start hour and the same end hour give the same window. */
  lemma {:induction false} OnlyHoursMatter(tz: TimeZone, hourly: seq<HourlyHumidity>, h1: HomeHours, h2: HomeHours)
    requires HourOf(tz, h1.start) == HourOf(tz, h2.start) && HourOf(tz, h1.end) == HourOf(tz, h2.end)
    ensures CalculateOptimalWindow(tz, hourly, h1) == CalculateOptimalWindow(tz, hourly, h2)
  {
    RelevantOnlyHoursMatter(tz, hourly, h1, h2);
  }

  lemma {:induction false} RelevantOnlyHoursMatter(tz: TimeZone, hourly: seq<HourlyHumidity>, h1: HomeHours, h2: HomeHours)
    requires HourOf(tz, h1.start) == HourOf(tz, h2.start) && HourOf(tz, h1.end) == HourOf(tz, h2.end)
    ensures RelevantHours(tz, h1, hourly) == RelevantHours(tz, h2, hourly)
  {
    if |hourly| > 0 {
      RelevantOnlyHoursMatter(tz, hourly[1..], h1, h2);
    }
  }

  /** The in-range hour at index `i` has the least humidity among in-range
      hours, and every in-range hour before it is strictly more humid. */
  ghost predicate FirstLeastInRange(tz: TimeZone, home: HomeHours, hourly: seq<HourlyHumidity>, i: int) {
    && 0 <= i < |hourly|
    && InHomeHours(tz, home, hourly[i])
    && (forall j :: 0 <= j < |hourly| && InHomeHours(tz, home, hourly[j]) ==> hourly[i].humidity <= hourly[j].humidity)
    && (forall j :: 0 <= j < i && InHomeHours(tz, home, hourly[j]) ==> hourly[j].humidity > hourly[i].humidity)
  }

  /** The point the filter-and-sort picks is the first least-humid in-range
      hour of the original series. */
  lemma {:induction false} ChosenIsFirstLeast(tz: TimeZone, home: HomeHours, hourly: seq<HourlyHumidity>)
    requires |RelevantHours(tz, home, hourly)| > 0
    ensures var relevant := RelevantHours(tz, home, hourly);
            exists i :: FirstLeastInRange(tz, home, hourly, i) && hourly[i] == relevant[FirstMinimum(relevant)]
  {
    var relevant := RelevantHours(tz, home, hourly);
    var rest := RelevantHours(tz, home, hourly[1..]);
    if !InHomeHours(tz, home, hourly[0]) {
      assert relevant == rest;
      ChosenIsFirstLeast(tz, home, hourly[1..]);
      var i :| FirstLeastInRange(tz, home, hourly[1..], i) && hourly[1..][i] == rest[FirstMinimum(rest)];
      ShiftPastHead(tz, home, hourly, i);
    } else {
      assert relevant == [hourly[0]] + rest;
      if |rest| == 0 {
        HeadIsFirstLeast(tz, home, hourly, rest);
        assert FirstMinimum(relevant) == 0;
      } else {
        assert relevant[1..] == rest;
        var k := FirstMinimum(rest);
        if rest[k].humidity < hourly[0].humidity {
          assert FirstMinimum(relevant) == k + 1 && relevant[k + 1] == rest[k];
          ChosenIsFirstLeast(tz, home, hourly[1..]);
          var i :| FirstLeastInRange(tz, home, hourly[1..], i) && hourly[1..][i] == rest[k];
          ShiftPastHead(tz, home, hourly, i);
        } else {
          assert FirstMinimum(relevant) == 0;
          HeadIsFirstLeast(tz, home, hourly, rest);
        }
      }
    }
  }

  /** The first-least hour of the tail stays first-least in the whole series
      when the head is out of range or more humid. */
  lemma ShiftPastHead(tz: TimeZone, home: HomeHours, hourly: seq<HourlyHumidity>, i: int)
    requires |hourly| > 0
    requires FirstLeastInRange(tz, home, hourly[1..], i)
    requires InHomeHours(tz, home, hourly[0]) ==> hourly[0].humidity > hourly[1..][i].humidity
    ensures FirstLeastInRange(tz, home, hourly, i + 1) && hourly[i + 1] == hourly[1..][i]
  {
    var tail := hourly[1..];
    forall j | 0 <= j < |hourly| && InHomeHours(tz, home, hourly[j])
      ensures tail[i].humidity <= hourly[j].humidity
    {
      if j > 0 { assert hourly[j] == tail[j - 1]; }
    }
    forall j | 0 <= j < i + 1 && InHomeHours(tz, home, hourly[j])
      ensures hourly[j].humidity > tail[i].humidity
    {
      if j > 0 { assert hourly[j] == tail[j - 1]; }
    }
  }

  /** An in-range head no in-range tail hour undercuts is first-least. */
  lemma HeadIsFirstLeast(tz: TimeZone, home: HomeHours, hourly: seq<HourlyHumidity>, rest: seq<HourlyHumidity>)
    requires |hourly| > 0 && InHomeHours(tz, home, hourly[0])
    requires rest == RelevantHours(tz, home, hourly[1..])
    requires |rest| > 0 ==> hourly[0].humidity <= rest[FirstMinimum(rest)].humidity
    ensures FirstLeastInRange(tz, home, hourly, 0)
  {
    forall j | 0 <= j < |hourly| && InHomeHours(tz, home, hourly[j])
      ensures hourly[0].humidity <= hourly[j].humidity
    {
      if j > 0 {
        assert hourly[j] == hourly[1..][j - 1];
        assert hourly[j] in rest;
        var m :| 0 <= m < |rest| && rest[m] == hourly[j];
        assert rest[FirstMinimum(rest)].humidity <= rest[m].humidity;
      }
    }
  }

  /** Ties go to the earliest hour of the series: the window opens at the
      first in-range hour whose humidity no in-range hour undercuts. */
  lemma WindowAtFirstLeast(tz: TimeZone, home: HomeHours, hourly: seq<HourlyHumidity>)
    requires CalculateOptimalWindow(tz, hourly, home).Some?
    ensures exists i :: FirstLeastInRange(tz, home, hourly, i)
                        && hourly[i].date == CalculateOptimalWindow(tz, hourly, home).value.start
  {
    ChosenIsFirstLeast(tz, home, hourly);
  }

  /* ---------------- Humidity inside a window ---------------- */

  /** Both ends of the window are inclusive (`isInWindow`, `isInOptimalWindow`). */
  predicate InWindow(w: Window, t: Instant) {
    w.start <= t <= w.end
  }

  function PointsInWindow(hourly: seq<HourlyHumidity>, w: Window): (r: seq<HourlyHumidity>)
    ensures forall p :: p in r <==> p in hourly && InWindow(w, p.date)
  {
    if |hourly| == 0 then []
    else (if InWindow(w, hourly[0].date) then [hourly[0]] else []) + PointsInWindow(hourly[1..], w)
  }

  /** The main app's `optimalWindowHumidity`: the least humidity among the
      hours inside the window. */
  function WindowMinimumHumidity(hourly: seq<HourlyHumidity>, window: Option<Window>): (r: Option<real>)
    ensures r.None? <==> window.None? || forall p :: p in hourly ==> !InWindow(window.value, p.date)
    ensures r.Some? ==> exists p :: p in hourly && InWindow(window.value, p.date) && p.humidity == r.value
    ensures r.Some? ==> forall p :: p in hourly && InWindow(window.value, p.date) ==> r.value <= p.humidity
  {
    match window
    case None => None
    case Some(w) =>
      var inside := PointsInWindow(hourly, w);
      if |inside| == 0 then None
      else
        var m := inside[FirstMinimum(inside)];
        assert forall q :: q in inside ==> m.humidity <= q.humidity;
        Some(m.humidity)
  }

  /** For a window computed from the same series, there is always a
      humidity figure, and it is at most the humidity of the hour the window
      was chosen for (hours outside the home hours but inside the window can
      only lower it). */
  lemma WindowMinimumOfSelectedWindow(tz: TimeZone, hourly: seq<HourlyHumidity>, home: HomeHours)
    requires CalculateOptimalWindow(tz, hourly, home).Some?
    ensures var w := CalculateOptimalWindow(tz, hourly, home);
            && WindowMinimumHumidity(hourly, w).Some?
            && forall p :: p in hourly && InHomeHours(tz, home, p) ==> WindowMinimumHumidity(hourly, w).value <= p.humidity
  {
    var w := CalculateOptimalWindow(tz, hourly, home).value;
    var p :| && p in hourly && InHomeHours(tz, home, p) && p.date == w.start
             && forall q :: q in hourly && InHomeHours(tz, home, q) ==> p.humidity <= q.humidity;
    assert InWindow(w, p.date);
  }

  /* ---------------- Examples ---------------- */

  /** Hours at 06:00 (20 %) and 10:00 (50 %) with home hours 08:00 to 20:00:
      the drier hour is outside the home hours, so the window opens at 10:00. */
  lemma ExampleOutOfRangeMinimumIgnored()
    ensures var tz := TimeZone(0);
            var hourly := [HourlyHumidity(0, 6 * SecondsPerHour, 20.0), HourlyHumidity(1, 10 * SecondsPerHour, 50.0)];
            CalculateOptimalWindow(tz, hourly, HomeHours(8 * SecondsPerHour, 20 * SecondsPerHour))
              == Some(Window(10 * SecondsPerHour, 12 * SecondsPerHour))
  {
    var tz := TimeZone(0);
    var home := HomeHours(8 * SecondsPerHour, 20 * SecondsPerHour);
    var early := HourlyHumidity(0, 6 * SecondsPerHour, 20.0);
    var late := HourlyHumidity(1, 10 * SecondsPerHour, 50.0);
    assert HourOf(tz, early.date) == 6 && HourOf(tz, late.date) == 10;
    assert HourOf(tz, home.start) == 8 && HourOf(tz, home.end) == 20;
    assert [early, late][1..] == [late];
    assert RelevantHours(tz, home, [late]) == [late];
    assert RelevantHours(tz, home, [early, late]) == [late];
  }

  /** Overnight home hours (22:00 to 06:00) never match any hour. */
  lemma ExampleOvernightHomeHours(hourly: seq<HourlyHumidity>)
    ensures CalculateOptimalWindow(TimeZone(0), hourly, HomeHours(22 * SecondsPerHour, 6 * SecondsPerHour)).None?
  {
  }
}
