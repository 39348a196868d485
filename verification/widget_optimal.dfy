/** The ventilation widget's timeline provider: the full fetch pipeline, the
    widget's own predicted-humidity rule, and the chart's window test. */
module OptimalWidget {
  import opened Wrappers
  import opened Calendar
  import opened Models
  import opened Store
  import opened HumidityMath
  import opened OptimalWindow
  import opened WeatherManager
  import HumidityWidget

  datatype OptimalEntry = OptimalEntry(
    date: Instant,
    lastRefresh: Instant,
    optimalWindow: Option<Window>,
    predictedHumidity: Option<real>,
    hourlyHumidity: seq<HourlyHumidity>,
    relativeHumidity: Option<real>,
    unit: Option<TemperatureUnit>)

  /** The entry together with the store the fetch leaves behind. */
  datatype OptimalFetched = OptimalFetched(entry: OptimalEntry, store: Store)

  /** The chart draws at most this many hours. */
  const ChartHours: nat := 24

  /** `OptimalEntry.errorEntry()` */
  function ErrorEntry(now: Instant): (e: OptimalEntry)
    ensures e.date == now && e.lastRefresh == DistantPast
    ensures e.optimalWindow.None? && e.predictedHumidity.None? && e.hourlyHumidity == []
    ensures e.relativeHumidity.None? && e.unit.None?
  {
    OptimalEntry(now, DistantPast, None, None, [], None, None)
  }

  /** The widget's predicted humidity: the humidity of the first hour of
      the series inside the window, both ends included. */
  function FirstInWindowHumidity(hourly: seq<HourlyHumidity>, window: Option<Window>): (r: Option<real>)
    ensures r.None? <==> window.None? || forall p :: p in hourly ==> !InWindow(window.value, p.date)
    ensures r.Some? ==>
              exists i :: && 0 <= i < |hourly| && InWindow(window.value, hourly[i].date)
                          && hourly[i].humidity == r.value
                          && forall j :: 0 <= j < i ==> !InWindow(window.value, hourly[j].date)
  {
    match window
    case None => None
    case Some(w) =>
      if |hourly| == 0 then None
      else if InWindow(w, hourly[0].date) then Some(hourly[0].humidity)
      else
        var rest := FirstInWindowHumidity(hourly[1..], window);
        assert forall p :: p in hourly[1..] ==> p in hourly;
        assert rest.Some? ==> exists i :: && 0 <= i < |hourly[1..]| && InWindow(w, hourly[1..][i].date)
                                          && hourly[1..][i].humidity == rest.value
                                          && forall j :: 0 <= j < i ==> !InWindow(w, hourly[1..][j].date);
        if rest.Some? then
          var i :| && 0 <= i < |hourly[1..]| && InWindow(w, hourly[1..][i].date)
                   && hourly[1..][i].humidity == rest.value
                   && forall j :: 0 <= j < i ==> !InWindow(w, hourly[1..][j].date);
          assert forall j :: 1 <= j < i + 1 ==> hourly[j] == hourly[1..][j - 1];
          assert hourly[i + 1] == hourly[1..][i];
          rest
        else
          rest
  }

  /** The widget and the main app agree on whether there is a predicted
      humidity, and the widget's figure is never below the main app's. */
  lemma WidgetPredictionAtLeastAppMinimum(hourly: seq<HourlyHumidity>, window: Option<Window>)
    ensures FirstInWindowHumidity(hourly, window).Some? <==> WindowMinimumHumidity(hourly, window).Some?
    ensures FirstInWindowHumidity(hourly, window).Some? ==>
              WindowMinimumHumidity(hourly, window).value <= FirstInWindowHumidity(hourly, window).value
  {
    var r := FirstInWindowHumidity(hourly, window);
    if r.Some? {
      var i :| && 0 <= i < |hourly| && InWindow(window.value, hourly[i].date)
               && hourly[i].humidity == r.value
               && forall j :: 0 <= j < i ==> !InWindow(window.value, hourly[j].date);
      assert hourly[i] in hourly;
    }
  }

  /** For a series in strictly increasing time order and the window chosen
      from it, the widget's figure is the least humidity of the home hours:
      the first hour inside the window is the hour the window was chosen
      for. */
  lemma WidgetPredictionIsChosenHour(tz: TimeZone, hourly: seq<HourlyHumidity>, home: HomeHours)
    requires forall i, j :: 0 <= i < j < |hourly| ==> hourly[i].date < hourly[j].date
    requires CalculateOptimalWindow(tz, hourly, home).Some?
    ensures var r := FirstInWindowHumidity(hourly, CalculateOptimalWindow(tz, hourly, home));
            && r.Some?
            && (exists p :: p in hourly && InHomeHours(tz, home, p) && p.humidity == r.value)
            && forall q :: q in hourly && InHomeHours(tz, home, q) ==> r.value <= q.humidity
  {
    var window := CalculateOptimalWindow(tz, hourly, home);
    WindowAtFirstLeast(tz, home, hourly);
    var k :| FirstLeastInRange(tz, home, hourly, k) && hourly[k].date == window.value.start;
    assert InWindow(window.value, hourly[k].date);
    var r := FirstInWindowHumidity(hourly, window);
    var i :| && 0 <= i < |hourly| && InWindow(window.value, hourly[i].date)
             && hourly[i].humidity == r.value
             && forall j :: 0 <= j < i ==> !InWindow(window.value, hourly[j].date);
    assert i == k;
    forall q | q in hourly && InHomeHours(tz, home, q) ensures r.value <= q.humidity {
      var j :| 0 <= j < |hourly| && hourly[j] == q;
    }
    assert hourly[k] in hourly;
  }

  /** `fetchOptimalEntry()`.  Without a saved location, or when the fetch
      fails, the error entry; otherwise the fetched series, window and
      widget prediction, with the relative humidity and the unit read back
      from the store the fetch has just written. */
  function FetchOptimalEntry(s: Store, tz: TimeZone, exp: PositiveFn, now: Instant, firstId: nat,
                             current: Result<CurrentWeather, FetchError>,
                             service: ForecastService): (r: OptimalFetched)
    requires current.Success? ==> Measurable(current.value)
    ensures LoadSavedLocation(s).None? ==> r == OptimalFetched(ErrorEntry(now), s)
    ensures LoadSavedLocation(s).Some? && (current.Failure? || RequestedForecast(service, tz, now).Failure?) ==>
              r == OptimalFetched(ErrorEntry(now), s)
    ensures LoadSavedLocation(s).Some? && current.Success? && RequestedForecast(service, tz, now).Success? ==>
              var f := FetchAllWeatherData(s, tz, exp, now, firstId, current, service, true);
              var data := f.result.value;
              && r.store == f.store
              && r.entry.date == now && r.entry.lastRefresh == now
              && r.entry.optimalWindow == data.optimalWindow
              && r.entry.hourlyHumidity == data.hourly
              && r.entry.predictedHumidity == FirstInWindowHumidity(data.hourly, data.optimalWindow)
              && r.entry.relativeHumidity == Some(DoubleFor(f.store, RelativeHumidityKey))
              && r.entry.unit == Some(LoadTemperatureUnit(f.store))
  {
    match LoadSavedLocation(s)
    case None => OptimalFetched(ErrorEntry(now), s)
    case Some(_) =>
      var f := FetchAllWeatherData(s, tz, exp, now, firstId, current, service, true);
      match f.result
      case Failure(_) => OptimalFetched(ErrorEntry(now), f.store)
      case Success(data) =>
        var entry := OptimalEntry(now, now, data.optimalWindow,
                                  FirstInWindowHumidity(data.hourly, data.optimalWindow), data.hourly,
                                  Some(DoubleFor(f.store, RelativeHumidityKey)), Some(LoadTemperatureUnit(f.store)));
        OptimalFetched(entry, f.store)
  }

  /** What the widget reads back after a successful fetch: the humidity the
      fetch stored, in percent, and the unit as it was before. */
  lemma FetchedReadings(s: Store, tz: TimeZone, exp: PositiveFn, now: Instant, firstId: nat,
                        current: Result<CurrentWeather, FetchError>,
                        service: ForecastService)
    requires current.Success? ==> Measurable(current.value)
    requires current.Success? && RequestedForecast(service, tz, now).Success?
    ensures var f := FetchAllWeatherData(s, tz, exp, now, firstId, current, service, true);
            && DoubleFor(f.store, RelativeHumidityKey) == current.value.humidity * 100.0
            && LoadTemperatureUnit(f.store) == LoadTemperatureUnit(s)
  {
    var f := FetchAllWeatherData(s, tz, exp, now, firstId, current, service, true);
    var data := f.result.value;
    var written := PersistedKeys(Some(Window(0, 0))) + {LastWeatherFetchKey};
    StampedPersistReadBack(s, now, data.current, data.absoluteHumidity, data.hourly, data.optimalWindow, 0);
    UnitKeyNotWritten();
    UnwrittenKeyKept(s, f.store, written, UnitKey);
    assert StringFor(f.store, UnitKey) == StringFor(s, UnitKey);
  }

  /** A successful entry carries a prediction exactly when it carries a
      window, whatever the order of the forecast hours. */
  lemma EntryPredictionIffWindow(s: Store, tz: TimeZone, exp: PositiveFn, now: Instant, firstId: nat,
                                 current: Result<CurrentWeather, FetchError>,
                                 service: ForecastService)
    requires current.Success? ==> Measurable(current.value)
    requires LoadSavedLocation(s).Some? && current.Success? && RequestedForecast(service, tz, now).Success?
    ensures var e := FetchOptimalEntry(s, tz, exp, now, firstId, current, service).entry;
            e.predictedHumidity.Some? <==> e.optimalWindow.Some?
  {
    var e := FetchOptimalEntry(s, tz, exp, now, firstId, current, service).entry;
    if e.optimalWindow.Some? {
      var p :| p in e.hourlyHumidity && p.date == e.optimalWindow.value.start;
      assert InWindow(e.optimalWindow.value, p.date);
    }
  }

  /** For a time-ordered forecast the prediction is the least home-hours
      humidity of the series. */
  lemma EntryPredictionIsMinimum(s: Store, tz: TimeZone, exp: PositiveFn, now: Instant, firstId: nat,
                                 current: Result<CurrentWeather, FetchError>,
                                 service: ForecastService)
    requires current.Success? ==> Measurable(current.value)
    requires LoadSavedLocation(s).Some? && current.Success? && RequestedForecast(service, tz, now).Success?
    requires var forecast := RequestedForecast(service, tz, now).value;
             forall i, j :: 0 <= i < j < |forecast| ==> forecast[i].date < forecast[j].date
    ensures var e := FetchOptimalEntry(s, tz, exp, now, firstId, current, service).entry;
            var home := ManagerHomeHours(tz, s, now);
            e.predictedHumidity.Some? ==>
              forall q :: q in e.hourlyHumidity && InHomeHours(tz, home, q) ==> e.predictedHumidity.value <= q.humidity
  {
    var e := FetchOptimalEntry(s, tz, exp, now, firstId, current, service).entry;
    var forecast := RequestedForecast(service, tz, now).value;
    var points := ToHourly(forecast, firstId);
    var home := ManagerHomeHours(tz, s, now);
    assert e.hourlyHumidity == points;
    assert forall i :: 0 <= i < |points| ==> points[i].date == forecast[i].date;
    if e.optimalWindow.Some? {
      WidgetPredictionIsChosenHour(tz, points, home);
    }
  }

  /** `isInWindow(_:)`: false without a window, otherwise both ends count.
      The main app's chart uses the same test. */
  predicate IsInWindow(window: Option<Window>, t: Instant) {
    window.Some? && InWindow(window.value, t)
  }

  /** The chart and the app pick the same hours: an hour is highlighted
      exactly when it is among the hours the app's window minimum is taken
      over, and no hour is highlighted without a window.  Both ends of a
      window count; a second past either end does not. */
  lemma HighlightMatchesAppWindow(hourly: seq<HourlyHumidity>, window: Option<Window>)
    ensures window.None? ==> forall p :: p in hourly ==> !IsInWindow(window, p.date)
    ensures window.Some? ==> forall p :: p in hourly && IsInWindow(window, p.date) <==> p in PointsInWindow(hourly, window.value)
    ensures window.Some? && window.value.start <= window.value.end ==>
              IsInWindow(window, window.value.start) && IsInWindow(window, window.value.end)
    ensures window.Some? ==> !IsInWindow(window, window.value.start - 1) && !IsInWindow(window, window.value.end + 1)
  {
  }

  /** The hours the chart draws: the first 24 of the series. */
  function ChartPoints(e: OptimalEntry): (r: seq<HourlyHumidity>)
    ensures |r| == if |e.hourlyHumidity| < ChartHours then |e.hourlyHumidity| else ChartHours
    ensures r == e.hourlyHumidity[..|r|]
  {
    if |e.hourlyHumidity| <= ChartHours then e.hourlyHumidity else e.hourlyHumidity[..ChartHours]
  }

  /** Whenever the entry carries a prediction, it is the humidity of an hour
      the chart would highlight; an entry without a window highlights
      nothing. */
  lemma PredictionIsHighlighted(e: OptimalEntry)
    requires e.predictedHumidity == FirstInWindowHumidity(e.hourlyHumidity, e.optimalWindow)
    ensures e.predictedHumidity.Some? ==>
              exists p :: p in e.hourlyHumidity && IsInWindow(e.optimalWindow, p.date) && p.humidity == e.predictedHumidity.value
    ensures e.optimalWindow.None? ==> forall p :: p in ChartPoints(e) ==> !IsInWindow(e.optimalWindow, p.date)
  {
    if e.predictedHumidity.Some? {
      var i :| && 0 <= i < |e.hourlyHumidity| && InWindow(e.optimalWindow.value, e.hourlyHumidity[i].date)
               && e.hourlyHumidity[i].humidity == e.predictedHumidity.value
               && forall j :: 0 <= j < i ==> !InWindow(e.optimalWindow.value, e.hourlyHumidity[j].date);
      assert e.hourlyHumidity[i] in e.hourlyHumidity;
    }
  }

  /** The timeline together with the store its fetch leaves behind. */
  datatype OptimalRefresh = OptimalRefresh(timeline: HumidityWidget.Timeline<OptimalEntry>, store: Store)

  /** `timeline(for:in:)`: the single fetched entry, the next request an
      hour on, and the store as the fetch left it. */
  function OptimalTimeline(s: Store, tz: TimeZone, exp: PositiveFn, now: Instant, firstId: nat,
                           current: Result<CurrentWeather, FetchError>,
                           service: ForecastService): (r: OptimalRefresh)
    requires current.Success? ==> Measurable(current.value)
    ensures var f := FetchOptimalEntry(s, tz, exp, now, firstId, current, service);
            r.timeline.entries == [f.entry] && r.store == f.store
    ensures r.timeline.entries[0].date == now
    ensures r.timeline.after == now + HumidityWidget.TimelineMinutes * SecondsPerMinute
  {
    var f := FetchOptimalEntry(s, tz, exp, now, firstId, current, service);
    OptimalRefresh(HumidityWidget.Timeline([f.entry], now + HumidityWidget.TimelineMinutes * SecondsPerMinute),
                   f.store)
  }

  /** A timeline whose fetch succeeds records the fetch time and the series
      in the store, and its entry shows the reported humidity in percent. */
  lemma OptimalTimelineRecordsFetch(s: Store, tz: TimeZone, exp: PositiveFn, now: Instant, firstId: nat,
                                    current: Result<CurrentWeather, FetchError>,
                                    service: ForecastService, readerId: nat)
    requires current.Success? ==> Measurable(current.value)
    requires LoadSavedLocation(s).Some? && current.Success? && RequestedForecast(service, tz, now).Success?
    ensures var r := OptimalTimeline(s, tz, exp, now, firstId, current, service);
            var e := r.timeline.entries[0];
            && DateFor(r.store, LastWeatherFetchKey) == Some(now)
            && SeriesReadsBackAs(r.store, e.hourlyHumidity, readerId)
            && e.lastRefresh == now
            && e.relativeHumidity == Some(current.value.humidity * 100.0)
  {
    var f := FetchAllWeatherData(s, tz, exp, now, firstId, current, service, true);
    var r := FetchOptimalEntry(s, tz, exp, now, firstId, current, service);
    assert r.store == f.store && r.entry.hourlyHumidity == f.result.value.hourly;
    FetchStoresWhatItReturns(s, tz, exp, now, firstId, current, service, readerId);
    FetchedReadings(s, tz, exp, now, firstId, current, service);
  }

  /** Any other timeline shows the error entry and leaves the store as it
      was. */
  lemma OptimalTimelineKeepsStoreOnError(s: Store, tz: TimeZone, exp: PositiveFn, now: Instant, firstId: nat,
                                         current: Result<CurrentWeather, FetchError>,
                                         service: ForecastService)
    requires current.Success? ==> Measurable(current.value)
    requires LoadSavedLocation(s).None? || current.Failure? || RequestedForecast(service, tz, now).Failure?
    ensures var r := OptimalTimeline(s, tz, exp, now, firstId, current, service);
            r.timeline.entries == [ErrorEntry(now)] && r.store == s
  {
  }
}
