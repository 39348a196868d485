/** The app-group defaults suite shared by the app and both widgets, as a
    map from key to property-list value, and the typed readers the code uses
    on it.  A write is a single map update. */
module Store {
  import opened Wrappers
  import opened Calendar
  import opened Models

  /** The bytes of a `Data` value: a JSON document, or bytes no decoder
      accepts. */
  datatype Bytes = JsonText(doc: Json) | Unparseable

  datatype Value =
    | VDouble(d: real)
    | VDate(t: Instant)
    | VString(s: string)
    | VData(bytes: Bytes)
    | VDict(entries: map<string, Value>)

  type Store = map<string, Value>

  /* Keys from `AppConstants`. */
  const LocationKey := "SavedLocation"
  const UnitKey := "TemperatureUnit"
  const HomeHoursKey := "HomeHours"
  const OptimalWindowStartKey := "OptimalWindowStart"
  const OptimalWindowEndKey := "OptimalWindowEnd"
  const HourlyHumidityKey := "HourlyHumidity"
  const PredictedHumidityKey := "PredictedHumidity"

  /* Keys written as literals in the code. */
  const RelativeHumidityKey := "relativeHumidity"
  const AbsoluteHumidityKey := "absoluteHumidity"
  const LastRefreshKey := "LastRefresh"
  const LastWeatherFetchKey := "LastWeatherFetch"

  /** `data(forKey:)` */
  function DataFor(s: Store, key: string): (r: Option<Bytes>)
    ensures r.Some? <==> key in s && s[key].VData?
  {
    if key in s && s[key].VData? then Some(s[key].bytes) else None
  }

  /** `string(forKey:)` */
  function StringFor(s: Store, key: string): (r: Option<string>)
    ensures r.Some? <==> key in s && s[key].VString?
  {
    if key in s && s[key].VString? then Some(s[key].s) else None
  }

  /** `object(forKey:) as? Date` */
  function DateFor(s: Store, key: string): (r: Option<Instant>)
    ensures r.Some? <==> key in s && s[key].VDate?
  {
    if key in s && s[key].VDate? then Some(s[key].t) else None
  }

  /** `double(forKey:)`: 0.0 when there is no number under the key. */
  function DoubleFor(s: Store, key: string): (d: real)
    ensures key in s && s[key].VDouble? ==> d == s[key].d
    ensures !(key in s && s[key].VDouble?) ==> d == 0.0
  {
    if key in s && s[key].VDouble? then s[key].d else 0.0
  }

  /** `dictionary(forKey:)` */
  function DictFor(s: Store, key: string): (r: Option<map<string, Value>>)
    ensures r.Some? <==> key in s && s[key].VDict?
  {
    if key in s && s[key].VDict? then Some(s[key].entries) else None
  }

  /** Every key outside `written` holds the same value (or stays absent). */
  predicate UnchangedExcept(before: Store, after: Store, written: set<string>) {
    && (forall k :: k in before && k !in written ==> k in after && after[k] == before[k])
    && (forall k :: k in after && k !in written ==> k in before)
  }
}
