/** The humidity widget's timeline provider: one entry with the current
    conditions in the saved unit, or an error entry. */
module HumidityWidget {
  import opened Wrappers
  import opened Calendar
  import opened Models
  import opened Store
  import opened HumidityMath
  import opened WeatherManager
  import opened WidgetRefresh

  datatype SimpleEntry = SimpleEntry(
    date: Instant,
    lastRefresh: Instant,
    relativeHumidity: Option<real>,
    absoluteHumidity: Option<real>,
    dewPoint: Option<real>,
    temperature: Option<real>,
    feelsLike: Option<real>,
    unit: Option<TemperatureUnit>)

  /** A timeline: its entries and the time after which to ask again. */
  datatype Timeline<E> = Timeline(entries: seq<E>, after: Instant)

  /** Minutes until the next timeline is requested. */
  const TimelineMinutes: int := 60

  /** `errorEntry(lastRefresh:)` */
  function ErrorEntry(now: Instant, lastRefresh: Instant): (e: SimpleEntry)
    ensures e.date == now && e.lastRefresh == lastRefresh
    ensures e.relativeHumidity.None? && e.absoluteHumidity.None? && e.dewPoint.None?
    ensures e.temperature.None? && e.feelsLike.None? && e.unit.None?
  {
    SimpleEntry(now, lastRefresh, None, None, None, None, None, None)
  }

  /** Every reading is present, or none is. */
  predicate Complete(e: SimpleEntry) {
    && e.relativeHumidity.Some? && e.absoluteHumidity.Some? && e.dewPoint.Some?
    && e.temperature.Some? && e.feelsLike.Some? && e.unit.Some?
  }

  /** `fetchWeatherEntry()`.  Without a saved location the entry is an error
      entry carrying the stored last refresh; when the weather request fails
      it is an error entry dated the distant past; otherwise the three
      temperatures are converted to the saved unit and the humidity given in
      percent. */
  function FetchWeatherEntry(s: Store, exp: PositiveFn, now: Instant,
                             current: Result<CurrentWeather, FetchError>): (e: SimpleEntry)
    requires current.Success? ==> Measurable(current.value)
    ensures e.date == now
    ensures LoadSavedLocation(s).None? ==> e == ErrorEntry(now, LastRefresh(s))
    ensures LoadSavedLocation(s).Some? && current.Failure? ==> e == ErrorEntry(now, DistantPast)
    ensures Complete(e) <==> LoadSavedLocation(s).Some? && current.Success?
    ensures Complete(e) ==>
              var c := current.value;
              var unit := LoadTemperatureUnit(s);
              && e.unit == Some(unit)
              && e.lastRefresh == now
              && e.relativeHumidity == Some(c.humidity * 100.0)
              && e.absoluteHumidity == Some(CurrentAbsoluteHumidity(exp, c))
              && e.temperature == Some(Convert(c.temperature, unit))
              && e.feelsLike == Some(Convert(c.apparentTemperature, unit))
              && e.dewPoint == Some(Convert(c.dewPoint, unit))
  {
    match LoadSavedLocation(s)
    case None => ErrorEntry(now, LastRefresh(s))
    case Some(_) =>
      var unit := LoadTemperatureUnit(s);
      match FetchWeatherData(exp, current)
      case Failure(_) => ErrorEntry(now, DistantPast)
      case Success((weather, absolute)) =>
        SimpleEntry(now, now, Some(weather.humidity * 100.0), Some(absolute),
                    Some(Convert(weather.dewPoint, unit)), Some(Convert(weather.temperature, unit)),
                    Some(Convert(weather.apparentTemperature, unit)), Some(unit))
  }

  /** "No location set" shows exactly when there is no relative humidity. */
  predicate ShowsNoLocation(e: SimpleEntry) {
    e.relativeHumidity.None?
  }

  /** An entry is either complete or shows the no-location notice. */
  lemma EntryCompleteOrNotice(s: Store, exp: PositiveFn, now: Instant, current: Result<CurrentWeather, FetchError>)
    requires current.Success? ==> Measurable(current.value)
    ensures var e := FetchWeatherEntry(s, exp, now, current);
            Complete(e) != ShowsNoLocation(e)
  {
  }

  /** The temperature on the widget, read back in its own unit, is the
      temperature the service reported. */
  lemma DisplayedTemperatureFaithful(s: Store, exp: PositiveFn, now: Instant, current: Result<CurrentWeather, FetchError>)
    requires current.Success? ==> Measurable(current.value)
    requires LoadSavedLocation(s).Some? && current.Success?
    ensures var e := FetchWeatherEntry(s, exp, now, current);
            && Complete(e)
            && Convert(Temperature(e.temperature.value, e.unit.value), current.value.temperature.unit)
              == current.value.temperature.value
  {
    ConvertRoundTrip(current.value.temperature, LoadTemperatureUnit(s));
  }

  /** `timeline(for:in:)`: the single entry, and the next request an hour on. */
  function HumidityTimeline(s: Store, exp: PositiveFn, now: Instant,
                            current: Result<CurrentWeather, FetchError>): (t: Timeline<SimpleEntry>)
    requires current.Success? ==> Measurable(current.value)
    ensures t.entries == [FetchWeatherEntry(s, exp, now, current)]
    ensures t.entries[0].date == now
    ensures t.after == now + TimelineMinutes * SecondsPerMinute
    ensures t.entries[0].date < t.after
  {
    Timeline([FetchWeatherEntry(s, exp, now, current)], now + TimelineMinutes * SecondsPerMinute)
  }

  /** The timeline's entry is complete exactly when a location is saved and
      the request succeeds; it then shows the reported temperature, and
      without a location it shows the stored last refresh. */
  lemma HumidityTimelineShowsFetch(s: Store, exp: PositiveFn, now: Instant,
                                   current: Result<CurrentWeather, FetchError>)
    requires current.Success? ==> Measurable(current.value)
    ensures var e := HumidityTimeline(s, exp, now, current).entries[0];
            && (Complete(e) <==> LoadSavedLocation(s).Some? && current.Success?)
            && (LoadSavedLocation(s).None? ==> e.lastRefresh == LastRefresh(s))
            && (Complete(e) ==>
                  Convert(Temperature(e.temperature.value, e.unit.value), current.value.temperature.unit)
                    == current.value.temperature.value)
  {
    if LoadSavedLocation(s).Some? && current.Success? {
      DisplayedTemperatureFaithful(s, exp, now, current);
    }
  }

  /** Pressing the button with no saved location: the reloaded entry shows
      the time of the press. */
  lemma ButtonPressShownWithoutLocation(s: Store, exp: PositiveFn, pressed: Instant, now: Instant,
                                        current: Result<CurrentWeather, FetchError>)
    requires current.Success? ==> Measurable(current.value)
    requires LoadSavedLocation(s).None?
    ensures var after := Perform(ButtonIntent, s, pressed).store;
            FetchWeatherEntry(after, exp, now, current).lastRefresh == pressed
  {
    var after := Perform(ButtonIntent, s, pressed).store;
    assert DataFor(after, LocationKey) == DataFor(s, LocationKey);
  }
}
