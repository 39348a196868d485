/** `WeatherDataManager`: the shared fetch pipeline and its reads and
    writes of the app-group store.

    The weather service is not called: each call's outcome is a parameter
    (`Success` with what the service returned, or `Failure` with the error it
    threw).  `now` is the one clock reading the operation uses, and
    `firstId` is where the supply of fresh `HourlyHumidity` identifiers
    stands. */
module WeatherManager {
  import opened Wrappers
  import opened Calendar
  import opened Models
  import opened Store
  import opened HumidityMath
  import opened OptimalWindow

  /** Current conditions as the weather service reports them; `humidity` is
      a fraction between 0 and 1. */
  datatype CurrentWeather = CurrentWeather(
    temperature: Temperature,
    apparentTemperature: Temperature,
    dewPoint: Temperature,
    humidity: real)

  /** One hour of the hourly forecast; `humidity` is a fraction. */
  datatype HourForecast = HourForecast(date: Instant, humidity: real)

  /** A thrown error, by the `NSError` fields the app looks at. */
  datatype FetchError = FetchError(domain: string, code: int, remaining: Option<real>, description: string)

  /** The tuple `fetchAllWeatherData` returns. */
  datatype WeatherData = WeatherData(
    current: CurrentWeather,
    absoluteHumidity: real,
    hourly: seq<HourlyHumidity>,
    optimalWindow: Option<Window>)

  /** The outcome of a fetch together with the store it leaves behind. */
  datatype Fetched = Fetched(result: Result<WeatherData, FetchError>, store: Store)

  /** The current temperature is one the formula is defined for. */
  predicate Measurable(c: CurrentWeather) {
    MagnusDefined(Convert(c.temperature, Celsius))
  }

  /** Absolute humidity of the current conditions: the temperature is
      converted to Celsius and the humidity to percent before the formula. */
  function CurrentAbsoluteHumidity(exp: PositiveFn, c: CurrentWeather): real
    requires Measurable(c)
  {
    AbsoluteHumidity(exp, Convert(c.temperature, Celsius), c.humidity * 100.0)
  }

  /** The displayed unit never enters the absolute humidity: the same
      conditions reported in Fahrenheit or in Celsius give the same figure. */
  lemma AbsoluteHumidityIgnoresUnit(exp: PositiveFn, c: CurrentWeather, unit: TemperatureUnit)
    requires Measurable(c)
    ensures var c' := c.(temperature := Temperature(Convert(c.temperature, unit), unit));
            Measurable(c') && CurrentAbsoluteHumidity(exp, c') == CurrentAbsoluteHumidity(exp, c)
  {
    var t := Convert(c.temperature, unit);
    assert Convert(Temperature(t, unit), Celsius) == Convert(c.temperature, Celsius);
  }

  /* ---------------- Unit preference ---------------- */

  /** How `saveTemperatureUnit` spells a unit in the store: one of the two
      names, and the one the reader turns back into the same unit. */
  function UnitName(u: TemperatureUnit): (name: string)
    ensures name == "celsius" || name == "fahrenheit"
    ensures (name == "celsius") <==> u == Celsius
  {
    if u == Celsius then "celsius" else "fahrenheit"
  }

  /** Reading a stored unit name: "celsius" is Celsius, any other string is
      Fahrenheit. */
  function UnitFromName(name: string): (u: TemperatureUnit)
    ensures u == Celsius <==> name == "celsius"
    ensures UnitName(u) == name <==> name in {"celsius", "fahrenheit"}
  {
    if name == "celsius" then Celsius else Fahrenheit
  }

  /** `loadTemperatureUnit()`: Celsius when no string is stored. */
  function LoadTemperatureUnit(s: Store): (u: TemperatureUnit)
    ensures StringFor(s, UnitKey).None? ==> u == Celsius
    ensures StringFor(s, UnitKey).Some? ==> (u == Celsius <==> StringFor(s, UnitKey).value == "celsius")
  {
    match StringFor(s, UnitKey)
    case None => Celsius
    case Some(name) => UnitFromName(name)
  }

  /* ---------------- Saved location ---------------- */

  /** `saveLocation(_:)`: the location, JSON-encoded, under its key and
      nothing else. */
  function SaveLocation(s: Store, l: SavedLocation): (r: Store)
    ensures UnchangedExcept(s, r, {LocationKey})
    ensures LoadSavedLocation(r) == Some(l)
  {
    LocationRoundTrip(l);
    s[LocationKey := VData(JsonText(EncodeLocation(l)))]
  }

  /** `loadSavedLocation()`: nothing when no data is stored or it does not
      decode. */
  function LoadSavedLocation(s: Store): (r: Option<SavedLocation>)
    ensures DataFor(s, LocationKey).None? ==> r.None?
    ensures DataFor(s, LocationKey) == Some(Unparseable) ==> r.None?
    ensures r.Some? ==> exists doc :: DataFor(s, LocationKey) == Some(JsonText(doc)) && DecodeLocation(doc) == r
  {
    match DataFor(s, LocationKey)
    case Some(JsonText(doc)) => DecodeLocation(doc)
    case _ => None
  }

  /* ---------------- Home hours ---------------- */

  /** The home hours stored as a dictionary with two dates, "start" and
      "end"; nothing when the key is missing or either date is. */
  function StoredHomeHours(s: Store): (r: Option<HomeHours>)
    ensures DictFor(s, HomeHoursKey).None? ==> r.None?
    ensures r.Some? ==> var d := DictFor(s, HomeHoursKey).value;
                        && "start" in d && d["start"] == VDate(r.value.start)
                        && "end" in d && d["end"] == VDate(r.value.end)
  {
    match DictFor(s, HomeHoursKey)
    case None => None
    case Some(d) =>
      if "start" in d && d["start"].VDate? && "end" in d && d["end"].VDate?
      then Some(HomeHours(d["start"].t, d["end"].t))
      else None
  }

  /** The home hours the pipeline uses: the stored ones, or midnight to noon
      of the current day. */
  function ManagerHomeHours(tz: TimeZone, s: Store, now: Instant): (home: HomeHours)
    ensures StoredHomeHours(s).Some? ==> home == StoredHomeHours(s).value
    ensures StoredHomeHours(s).None? ==> HourOf(tz, home.start) == 0 && HourOf(tz, home.end) == 12
  {
    match StoredHomeHours(s)
    case Some(h) => h
    case None =>
      var midnight := StartOfDay(tz, now);
      NoonAfterMidnight(tz, midnight);
      HomeHours(midnight, midnight + 12 * SecondsPerHour)
  }

  /* ---------------- Fetch pipeline ---------------- */

  /** The hourly forecast is requested from the start of the current day to
      the same time one day later. */
  function HourlyRange(tz: TimeZone, now: Instant): (range: (Instant, Instant))
    ensures range.0 <= now < range.1
    ensures range.1 == range.0 + SecondsPerDay
    ensures SecondOfDay(tz, range.0) == 0
  {
    var start := StartOfDay(tz, now);
    (start, start + SecondsPerDay)
  }

  /** Forecast hours as `HourlyHumidity`, humidity in percent, in order; each
      takes the next fresh identifier. */
  function ToHourly(forecast: seq<HourForecast>, firstId: nat): (r: seq<HourlyHumidity>)
    ensures |r| == |forecast|
    ensures forall i :: 0 <= i < |forecast| ==>
              r[i] == HourlyHumidity(firstId + i, forecast[i].date, forecast[i].humidity * 100.0)
  {
    if |forecast| == 0 then []
    else [HourlyHumidity(firstId, forecast[0].date, forecast[0].humidity * 100.0)] + ToHourly(forecast[1..], firstId + 1)
  }

  /** The keys `persistWeatherData` writes for a given window. */
  function PersistedKeys(window: Option<Window>): set<string> {
    {RelativeHumidityKey, AbsoluteHumidityKey, HourlyHumidityKey}
      + (if window.Some? then {OptimalWindowStartKey, OptimalWindowEndKey} else {})
  }

  /** `persistWeatherData`: current humidity in percent, absolute humidity
      and the encoded series always; the window bounds only when there is a
      window. */
  function PersistWeatherData(s: Store, current: CurrentWeather, absolute: real,
                              hourly: seq<HourlyHumidity>, window: Option<Window>): (r: Store)
    ensures UnchangedExcept(s, r, PersistedKeys(window))
    ensures RelativeHumidityKey in r && r[RelativeHumidityKey] == VDouble(current.humidity * 100.0)
    ensures AbsoluteHumidityKey in r && r[AbsoluteHumidityKey] == VDouble(absolute)
    ensures DataFor(r, HourlyHumidityKey) == Some(JsonText(EncodeSeries(hourly)))
    ensures window.Some? ==> (DateFor(r, OptimalWindowStartKey) == Some(window.value.start)
                             && DateFor(r, OptimalWindowEndKey) == Some(window.value.end))
  {
    var r := s[RelativeHumidityKey := VDouble(current.humidity * 100.0)]
              [AbsoluteHumidityKey := VDouble(absolute)]
              [HourlyHumidityKey := VData(JsonText(EncodeSeries(hourly)))];
    match window
    case None => r
    case Some(w) => r[OptimalWindowStartKey := VDate(w.start)][OptimalWindowEndKey := VDate(w.end)]
  }

  /** The window a reader of the store would see. */
  function StoredWindow(s: Store): Option<Window> {
    match (DateFor(s, OptimalWindowStartKey), DateFor(s, OptimalWindowEndKey))
    case (Some(a), Some(b)) => Some(Window(a, b))
    case _ => None
  }

  /** A found window is read back as written; without a window the
      previously stored one stays in place, next to the new series. */
  lemma PersistedWindowReadBack(s: Store, current: CurrentWeather, absolute: real,
                                hourly: seq<HourlyHumidity>, window: Option<Window>)
    ensures var r := PersistWeatherData(s, current, absolute, hourly, window);
            && (window.Some? ==> StoredWindow(r) == window)
            && (window.None? ==> StoredWindow(r) == StoredWindow(s))
  {
    var r := PersistWeatherData(s, current, absolute, hourly, window);
    if window.None? {
      assert DateFor(r, OptimalWindowStartKey) == DateFor(s, OptimalWindowStartKey);
      assert DateFor(r, OptimalWindowEndKey) == DateFor(s, OptimalWindowEndKey);
    }
  }

  /** The weather service's hourly forecast: its answer for a requested
      interval, the forecast hours or an error. */
  type ForecastService = (Instant, Instant) -> Result<seq<HourForecast>, FetchError>

  /** The answer the fetch gets: the forecast asked for `HourlyRange`. */
  function RequestedForecast(service: ForecastService, tz: TimeZone, now: Instant): Result<seq<HourForecast>, FetchError> {
    service(HourlyRange(tz, now).0, HourlyRange(tz, now).1)
  }

  /** `fetchAllWeatherData(for:forceRefresh:)`.  The current conditions are
      requested first; only if that succeeds is the hourly forecast asked
      for, from the start of today to the start of tomorrow.  Nothing is
      written unless both succeed. */
  function FetchAllWeatherData(s: Store, tz: TimeZone, exp: PositiveFn, now: Instant, firstId: nat,
                               current: Result<CurrentWeather, FetchError>,
                               service: ForecastService,
                               forceRefresh: bool): (f: Fetched)
    requires current.Success? ==> Measurable(current.value)
    ensures var hourly := service(HourlyRange(tz, now).0, HourlyRange(tz, now).1);
            && (current.Failure? ==> f == Fetched(Failure(current.error), s))
            && (current.Success? && hourly.Failure? ==> f == Fetched(Failure(hourly.error), s))
            && (f.result.Success? <==> current.Success? && hourly.Success?)
            && (f.result.Success? ==>
                  var data := f.result.value;
                  && data.current == current.value
                  && data.absoluteHumidity == CurrentAbsoluteHumidity(exp, current.value)
                  && data.hourly == ToHourly(hourly.value, firstId)
                  && data.optimalWindow == CalculateOptimalWindow(tz, data.hourly, ManagerHomeHours(tz, s, now))
                  && f.store == PersistWeatherData(s[LastWeatherFetchKey := VDate(now)], data.current,
                                                   data.absoluteHumidity, data.hourly, data.optimalWindow))
  {
    match current
    case Failure(e) => Fetched(Failure(e), s)
    case Success(c) =>
      var absolute := CurrentAbsoluteHumidity(exp, c);
      var range := HourlyRange(tz, now);
      match service(range.0, range.1)
      case Failure(e) => Fetched(Failure(e), s)
      case Success(forecast) =>
        var points := ToHourly(forecast, firstId);
        var window := CalculateOptimalWindow(tz, points, ManagerHomeHours(tz, s, now));
        var stored := PersistWeatherData(s[LastWeatherFetchKey := VDate(now)], c, absolute, points, window);
        Fetched(Success(WeatherData(c, absolute, points, window)), stored)
  }

  /** Only the answer for today's range matters: two services that agree
      on it lead to the same result and the same store. */
  lemma FetchAsksOnlyForToday(s: Store, tz: TimeZone, exp: PositiveFn, now: Instant, firstId: nat,
                              current: Result<CurrentWeather, FetchError>,
                              service1: ForecastService, service2: ForecastService)
    requires current.Success? ==> Measurable(current.value)
    requires RequestedForecast(service1, tz, now) == RequestedForecast(service2, tz, now)
    ensures FetchAllWeatherData(s, tz, exp, now, firstId, current, service1, true)
         == FetchAllWeatherData(s, tz, exp, now, firstId, current, service2, true)
  {
  }

  /** The `forceRefresh` flag changes nothing. */
  lemma FetchIgnoresForceRefresh(s: Store, tz: TimeZone, exp: PositiveFn, now: Instant, firstId: nat,
                                 current: Result<CurrentWeather, FetchError>,
                                 service: ForecastService)
    requires current.Success? ==> Measurable(current.value)
    ensures FetchAllWeatherData(s, tz, exp, now, firstId, current, service, true)
         == FetchAllWeatherData(s, tz, exp, now, firstId, current, service, false)
  {
  }

  /** The stored series decodes to the given hours: same length, and the
      same date and humidity at every position. */
  predicate SeriesReadsBackAs(s: Store, hourly: seq<HourlyHumidity>, readerId: nat) {
    && DataFor(s, HourlyHumidityKey).Some?
    && DataFor(s, HourlyHumidityKey).value.JsonText?
    && var back := DecodeSeries(DataFor(s, HourlyHumidityKey).value.doc, readerId);
       && back.Some? && |back.value| == |hourly|
       && forall i :: 0 <= i < |hourly| ==>
            back.value[i].date == hourly[i].date && back.value[i].humidity == hourly[i].humidity
  }

  lemma PersistedSeriesReadBack(s: Store, current: CurrentWeather, absolute: real,
                                hourly: seq<HourlyHumidity>, window: Option<Window>, readerId: nat)
    ensures SeriesReadsBackAs(PersistWeatherData(s, current, absolute, hourly, window), hourly, readerId)
  {
    SeriesRoundTrip(hourly, readerId);
  }

  /** What a reader finds after the fetch time is stamped and the data
      persisted: the series and a found window as written, the previous
      window when none was found, the fetch time, and every other key as it
      was. */
  lemma StampedPersistReadBack(s: Store, now: Instant, current: CurrentWeather, absolute: real,
                               hourly: seq<HourlyHumidity>, window: Option<Window>, readerId: nat)
    ensures var r := PersistWeatherData(s[LastWeatherFetchKey := VDate(now)], current, absolute, hourly, window);
            && SeriesReadsBackAs(r, hourly, readerId)
            && (window.Some? ==> StoredWindow(r) == window)
            && (window.None? ==> StoredWindow(r) == StoredWindow(s))
            && DateFor(r, LastWeatherFetchKey) == Some(now)
            && UnchangedExcept(s, r, PersistedKeys(Some(Window(0, 0))) + {LastWeatherFetchKey})
  {
    var s1 := s[LastWeatherFetchKey := VDate(now)];
    var r := PersistWeatherData(s1, current, absolute, hourly, window);
    PersistedSeriesReadBack(s1, current, absolute, hourly, window, readerId);
    PersistedWindowReadBack(s1, current, absolute, hourly, window);
    assert LastWeatherFetchKey !in PersistedKeys(window);
    assert StoredWindow(s1) == StoredWindow(s) by {
      assert DateFor(s1, OptimalWindowStartKey) == DateFor(s, OptimalWindowStartKey);
      assert DateFor(s1, OptimalWindowEndKey) == DateFor(s, OptimalWindowEndKey);
    }
  }

  /** The fetch never writes the predicted-humidity key. */
  lemma PredictedKeyNotWritten()
    ensures PredictedHumidityKey !in PersistedKeys(Some(Window(0, 0))) + {LastWeatherFetchKey}
  {
    assert |PredictedHumidityKey| == 17;
    assert forall k | k in PersistedKeys(Some(Window(0, 0))) + {LastWeatherFetchKey} :: |k| != 17;
  }

  /** The fetch never writes the unit preference. */
  lemma UnitKeyNotWritten()
    ensures UnitKey !in PersistedKeys(Some(Window(0, 0))) + {LastWeatherFetchKey}
  {
    assert |UnitKey| == 15;
    assert forall k | k in PersistedKeys(Some(Window(0, 0))) + {LastWeatherFetchKey} :: |k| != 15;
  }

  /** A key outside the written set is present after exactly when it was
      before, with the same value. */
  lemma UnwrittenKeyKept(before: Store, after: Store, written: set<string>, key: string)
    requires UnchangedExcept(before, after, written)
    requires key !in written
    ensures key in after <==> key in before
    ensures key in before ==> after[key] == before[key]
  {
  }

  /** After a successful fetch the store holds exactly the series and window
      the fetch returned, and the fetch time. */
  lemma FetchStoresWhatItReturns(s: Store, tz: TimeZone, exp: PositiveFn, now: Instant, firstId: nat,
                                 current: Result<CurrentWeather, FetchError>,
                                 service: ForecastService, readerId: nat)
    requires current.Success? ==> Measurable(current.value)
    requires FetchAllWeatherData(s, tz, exp, now, firstId, current, service, true).result.Success?
    ensures var f := FetchAllWeatherData(s, tz, exp, now, firstId, current, service, true);
            && SeriesReadsBackAs(f.store, f.result.value.hourly, readerId)
            && (f.result.value.optimalWindow.Some? ==> StoredWindow(f.store) == f.result.value.optimalWindow)
            && DateFor(f.store, LastWeatherFetchKey) == Some(now)
  {
    var f := FetchAllWeatherData(s, tz, exp, now, firstId, current, service, true);
    var data := f.result.value;
    StampedPersistReadBack(s, now, data.current, data.absoluteHumidity, data.hourly, data.optimalWindow, readerId);
  }

  /** The predicted-humidity key is never written, and a fetch that finds
      no window leaves the previous window bounds in place. */
  lemma FetchKeepsUnwrittenKeys(s: Store, tz: TimeZone, exp: PositiveFn, now: Instant, firstId: nat,
                                current: Result<CurrentWeather, FetchError>,
                                service: ForecastService)
    requires current.Success? ==> Measurable(current.value)
    ensures var f := FetchAllWeatherData(s, tz, exp, now, firstId, current, service, true);
            && (PredictedHumidityKey in f.store <==> PredictedHumidityKey in s)
            && (PredictedHumidityKey in s ==> f.store[PredictedHumidityKey] == s[PredictedHumidityKey])
            && (f.result.Success? && f.result.value.optimalWindow.None? ==> StoredWindow(f.store) == StoredWindow(s))
            && UnchangedExcept(s, f.store, PersistedKeys(Some(Window(0, 0))) + {LastWeatherFetchKey})
  {
    var f := FetchAllWeatherData(s, tz, exp, now, firstId, current, service, true);
    var written := PersistedKeys(Some(Window(0, 0))) + {LastWeatherFetchKey};
    if f.result.Success? {
      var data := f.result.value;
      StampedPersistReadBack(s, now, data.current, data.absoluteHumidity, data.hourly, data.optimalWindow, 0);
      assert UnchangedExcept(s, f.store, written);
      PredictedKeyNotWritten();
      UnwrittenKeyKept(s, f.store, written, PredictedHumidityKey);
    } else {
      assert f.store == s;
    }
  }

  /** `fetchWeatherData(for:)`, the current conditions alone, as the
      humidity widget uses them; it writes nothing. */
  function FetchWeatherData(exp: PositiveFn, current: Result<CurrentWeather, FetchError>): (r: Result<(CurrentWeather, real), FetchError>)
    requires current.Success? ==> Measurable(current.value)
    ensures r.Failure? <==> current.Failure?
    ensures r.Success? ==> r.value.0 == current.value && r.value.1 == CurrentAbsoluteHumidity(exp, current.value)
  {
    match current
    case Failure(e) => Failure(e)
    case Success(c) => Success((c, CurrentAbsoluteHumidity(exp, c)))
  }
}
