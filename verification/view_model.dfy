/** `WeatherViewModel`: the main app's state and the decisions it makes —
    the refresh state machine, the refresh predicates, the indoor
    comparison, and the unit and home-hours preferences.

    The view model is an immutable record; each operation returns the next
    record together with the store it leaves behind.  Property observers
    (`didSet`) that write to the store are part of the operation that sets
    the property. */
module WeatherViewModel {
  import opened Wrappers
  import opened Calendar
  import opened Text
  import opened Models
  import opened Store
  import opened HumidityMath
  import opened OptimalWindow
  import opened WeatherManager

  /** The transient notice at the bottom of the screen. */
  datatype Toast = CooldownNotice | NextRefreshIn(minutes: int) {
    function Message(): string {
      match this
      case CooldownNotice => "Please wait 30 seconds between refreshes"
      case NextRefreshIn(m) => "Next refresh available in " + IntText(m) + " minutes"
    }
  }

  /** The indoor/outdoor comparison advice. */
  datatype Advice = OpenWindows | KeepClosed {
    function Message(): string {
      match this
      case OpenWindows => "Opening windows now could reduce indoor humidity"
      case KeepClosed => "Keep windows closed to maintain lower humidity"
    }
  }

  datatype ViewModel = ViewModel(
    searchText: string,
    currentWeather: Option<CurrentWeather>,
    absoluteHumidity: Option<real>,
    savedLocation: Option<SavedLocation>,
    isLoading: bool,
    errorMessage: Option<string>,
    selectedUnit: TemperatureUnit,
    toastMessage: Option<Toast>,
    lastRefresh: Instant,
    homeHours: HomeHours,
    optimalWindowTime: Option<Window>,
    hourlyHumidityData: seq<HourlyHumidity>,
    indoorTemperature: string,
    indoorHumidity: string)

  /** A view model together with the store an operation leaves behind. */
  datatype Updated = Updated(vm: ViewModel, store: Store)

  const RefreshCooldown: int := 30

  /** Seconds assumed when a rate-limit error carries no "remaining" value. */
  const DefaultRateLimitWait: real := 300.0

  /* ---------------- Refresh predicates ---------------- */

  /** `canRefresh`: when it holds, a refresh with the cooldown enforced is
      not turned away. */
  function CanRefresh(vm: ViewModel, now: Instant): (b: bool)
    ensures b ==> !CooldownBlocks(vm, now, true)
  {
    now - vm.lastRefresh > RefreshCooldown
  }

  /** `shouldDisableRefresh`: the button is disabled exactly when a refresh
      with the cooldown enforced would be turned away. */
  function ShouldDisableRefresh(vm: ViewModel, now: Instant): (b: bool)
    ensures b <==> CooldownBlocks(vm, now, true)
  {
    now - vm.lastRefresh < RefreshCooldown
  }

  /** The two predicates never hold together, and exactly 30 seconds after
      the last refresh neither holds. */
  lemma RefreshPredicatesDisjoint(vm: ViewModel, now: Instant)
    ensures !(CanRefresh(vm, now) && ShouldDisableRefresh(vm, now))
    ensures !CanRefresh(vm, now) && !ShouldDisableRefresh(vm, now) <==> now - vm.lastRefresh == RefreshCooldown
  {
  }

  /* ---------------- Refresh state machine ---------------- */

  /** `Int(ceil(x))` */
  function Ceil(x: real): (c: int)
    ensures (c - 1) as real < x <= c as real
  {
    if x.Floor as real == x then x.Floor else x.Floor + 1
  }

  /** Minutes shown after a rate-limit error: the remaining seconds (300
      when the error does not say) rounded up to whole minutes. */
  function RateLimitMinutes(remaining: Option<real>): (m: int)
    ensures var r := remaining.GetOr(DefaultRateLimitWait);
            ((m - 1) * 60) as real < r <= (m * 60) as real
  {
    Ceil(remaining.GetOr(DefaultRateLimitWait) / 60.0)
  }

  lemma DefaultRateLimitIsFiveMinutes()
    ensures RateLimitMinutes(None) == 5
  {
  }

  /** An `NSError` in domain "WeatherError" with code 429. */
  predicate IsRateLimited(e: FetchError) {
    e.domain == "WeatherError" && e.code == 429
  }

  /** The refresh is turned away by the local cooldown. */
  predicate CooldownBlocks(vm: ViewModel, now: Instant, enforceCooldown: bool) {
    enforceCooldown && now - vm.lastRefresh < RefreshCooldown
  }

  /** `updateWeather(for:enforceCooldown:)` */
  function UpdateWeather(vm: ViewModel, s: Store, tz: TimeZone, exp: PositiveFn, now: Instant, firstId: nat,
                         enforceCooldown: bool,
                         current: Result<CurrentWeather, FetchError>,
                         service: ForecastService): (u: Updated)
    requires current.Success? ==> Measurable(current.value)
    ensures !u.vm.isLoading
    // The saved location and the home hours are never touched.
    ensures u.vm.savedLocation == vm.savedLocation && u.vm.homeHours == vm.homeHours
    // Turned away: only the toast changes, and nothing is fetched or stored.
    ensures CooldownBlocks(vm, now, enforceCooldown) ==>
              u == Updated(vm.(isLoading := false, toastMessage := Some(CooldownNotice)), s)
    // Otherwise the fetch runs and its writes stand, whatever its outcome.
    ensures !CooldownBlocks(vm, now, enforceCooldown) ==>
              u.store == FetchAllWeatherData(s, tz, exp, now, firstId, current, service, true).store
    ensures !CooldownBlocks(vm, now, enforceCooldown) ==>
              var f := FetchAllWeatherData(s, tz, exp, now, firstId, current, service, true);
              match f.result
              case Success(data) =>
                u.vm == vm.(isLoading := false,
                            currentWeather := Some(data.current),
                            absoluteHumidity := Some(data.absoluteHumidity),
                            hourlyHumidityData := data.hourly,
                            optimalWindowTime := data.optimalWindow,
                            errorMessage := None,
                            lastRefresh := now)
              case Failure(e) =>
                if IsRateLimited(e) then
                  u.vm == vm.(isLoading := false,
                              toastMessage := Some(NextRefreshIn(RateLimitMinutes(e.remaining))),
                              errorMessage := None)
                else
                  u.vm == vm.(isLoading := false,
                              errorMessage := Some("Error fetching weather: " + e.description),
                              currentWeather := None,
                              absoluteHumidity := None)
  {
    var loading := vm.(isLoading := true);
    if CooldownBlocks(vm, now, enforceCooldown) then
      Updated(loading.(toastMessage := Some(CooldownNotice), isLoading := false), s)
    else
      var f := FetchAllWeatherData(s, tz, exp, now, firstId, current, service, true);
      var next :=
        match f.result
        case Success(data) =>
          loading.(currentWeather := Some(data.current),
                   absoluteHumidity := Some(data.absoluteHumidity),
                   hourlyHumidityData := data.hourly,
                   optimalWindowTime := data.optimalWindow,
                   errorMessage := None,
                   lastRefresh := now)
        case Failure(e) =>
          if IsRateLimited(e) then
            loading.(toastMessage := Some(NextRefreshIn(RateLimitMinutes(e.remaining))), errorMessage := None)
          else
            loading.(errorMessage := Some("Error fetching weather: " + e.description),
                     currentWeather := None,
                     absoluteHumidity := None);
      Updated(next.(isLoading := false), f.store)
  }

  /** On any failure that is not a rate limit, the forecast series and the
      window stay on screen while the current conditions are cleared; on a
      rate limit all four weather fields stay as they were. */
  lemma FailureKeepsForecast(vm: ViewModel, s: Store, tz: TimeZone, exp: PositiveFn, now: Instant, firstId: nat,
                             enforceCooldown: bool,
                             current: Result<CurrentWeather, FetchError>,
                             service: ForecastService)
    requires current.Success? ==> Measurable(current.value)
    requires !CooldownBlocks(vm, now, enforceCooldown)
    requires current.Failure? || RequestedForecast(service, tz, now).Failure?
    ensures var u := UpdateWeather(vm, s, tz, exp, now, firstId, enforceCooldown, current, service);
            && u.store == s
            && u.vm.hourlyHumidityData == vm.hourlyHumidityData
            && u.vm.optimalWindowTime == vm.optimalWindowTime
            && u.vm.lastRefresh == vm.lastRefresh
            && var e := if current.Failure? then current.error else RequestedForecast(service, tz, now).error;
               if IsRateLimited(e) then
                 u.vm.currentWeather == vm.currentWeather && u.vm.absoluteHumidity == vm.absoluteHumidity
                 && u.vm.errorMessage.None?
               else
                 u.vm.currentWeather.None? && u.vm.absoluteHumidity.None? && u.vm.errorMessage.Some?
  {
  }

  /** Without `enforceCooldown` the time of the last refresh is never
      consulted: any two values of it lead to the same store and the same
      view model apart from `lastRefresh` itself. */
  lemma BypassIgnoresLastRefresh(vm: ViewModel, t1: Instant, t2: Instant, s: Store, tz: TimeZone, exp: PositiveFn,
                                 now: Instant, firstId: nat,
                                 current: Result<CurrentWeather, FetchError>,
                                 service: ForecastService)
    requires current.Success? ==> Measurable(current.value)
    ensures var u1 := UpdateWeather(vm.(lastRefresh := t1), s, tz, exp, now, firstId, false, current, service);
            var u2 := UpdateWeather(vm.(lastRefresh := t2), s, tz, exp, now, firstId, false, current, service);
            u1.store == u2.store && u1.vm.(lastRefresh := 0) == u2.vm.(lastRefresh := 0)
  {
  }

  /** Two refreshes with the cooldown enforced, less than 30 seconds after a
      successful one: the second leaves the store and every weather field
      untouched. */
  lemma SecondRefreshWithinCooldown(vm: ViewModel, s: Store, tz: TimeZone, exp: PositiveFn, now: Instant, later: Instant,
                                    firstId: nat, current: Result<CurrentWeather, FetchError>,
                                    service: ForecastService,
                                    current2: Result<CurrentWeather, FetchError>,
                                    service2: ForecastService)
    requires current.Success? ==> Measurable(current.value)
    requires current2.Success? ==> Measurable(current2.value)
    requires !CooldownBlocks(vm, now, true)
    requires current.Success? && RequestedForecast(service, tz, now).Success?
    requires now <= later < now + RefreshCooldown
    ensures var first := UpdateWeather(vm, s, tz, exp, now, firstId, true, current, service);
            var second := UpdateWeather(first.vm, first.store, tz, exp, later, firstId + |RequestedForecast(service, tz, now).value|, true, current2, service2);
            && second.store == first.store
            && second.vm == first.vm.(toastMessage := Some(CooldownNotice))
  {
  }

  /* ---------------- Indoor comparison ---------------- */

  /** `indoorAbsoluteHumidity`: both fields must parse and the humidity must
      lie in 0...100; a Fahrenheit reading is converted to Celsius before the
      formula. */
  function IndoorAbsoluteHumidity(vm: ViewModel, exp: PositiveFn): (r: Option<real>)
    ensures r.Some? <==> && ParseDecimal(vm.indoorTemperature).Some?
                         && ParseDecimal(vm.indoorHumidity).Some?
                         && 0.0 <= ParseDecimal(vm.indoorHumidity).value <= 100.0
    ensures r.Some? ==>
              var t := ParseDecimal(vm.indoorTemperature).value;
              var celsius := Convert(Temperature(t, vm.selectedUnit), Celsius);
              MagnusDefined(celsius) && r.value == AbsoluteHumidity(exp, celsius, ParseDecimal(vm.indoorHumidity).value)
  {
    match (ParseDecimal(vm.indoorTemperature), ParseDecimal(vm.indoorHumidity))
    case (Some(t), Some(h)) =>
      if 0.0 <= h <= 100.0 then
        var celsius := if vm.selectedUnit == Celsius then t else Convert(Temperature(t, Fahrenheit), Celsius);
        Some(AbsoluteHumidity(exp, celsius, h))
      else None
    case _ => None
  }

  /** `humidityComparisonAdvice`: open the windows exactly when the indoor
      air holds strictly more water than the outdoor air. */
  function HumidityComparisonAdvice(vm: ViewModel, exp: PositiveFn): (r: Option<Advice>)
    ensures r.None? <==> IndoorAbsoluteHumidity(vm, exp).None? || vm.absoluteHumidity.None?
    ensures r == Some(OpenWindows) <==>
              && IndoorAbsoluteHumidity(vm, exp).Some? && vm.absoluteHumidity.Some?
              && IndoorAbsoluteHumidity(vm, exp).value > vm.absoluteHumidity.value
  {
    match (IndoorAbsoluteHumidity(vm, exp), vm.absoluteHumidity)
    case (Some(indoor), Some(outdoor)) => if indoor > outdoor then Some(OpenWindows) else Some(KeepClosed)
    case _ => None
  }

  /** `optimalWindowHumidity`: the least humidity among the hours inside the
      window, both ends included; none without a window or without an hour
      inside it. */
  function OptimalWindowHumidity(vm: ViewModel): (r: Option<real>)
    ensures r.None? <==> vm.optimalWindowTime.None? || forall p :: p in vm.hourlyHumidityData ==> !InWindow(vm.optimalWindowTime.value, p.date)
    ensures r.Some? ==> exists p :: p in vm.hourlyHumidityData && InWindow(vm.optimalWindowTime.value, p.date) && p.humidity == r.value
    ensures r.Some? ==> forall p :: p in vm.hourlyHumidityData && InWindow(vm.optimalWindowTime.value, p.date) ==> r.value <= p.humidity
  {
    WindowMinimumHumidity(vm.hourlyHumidityData, vm.optimalWindowTime)
  }

  /* ---------------- Preferences ---------------- */

  /** Setting `selectedUnit`; its observer stores the unit's name. */
  function SetSelectedUnit(vm: ViewModel, s: Store, unit: TemperatureUnit): (u: Updated)
    ensures u.vm == vm.(selectedUnit := unit)
    ensures UnchangedExcept(s, u.store, {UnitKey})
    ensures LoadTemperatureUnit(u.store) == unit
  {
    Updated(vm.(selectedUnit := unit), s[UnitKey := VString(UnitName(unit))])
  }

  /** The view model's `loadTemperatureUnit()`: with no stored string the
      unit is kept; otherwise it is set, and setting it writes the name back,
      so an unknown name is rewritten as "fahrenheit". */
  function LoadUnitIntoViewModel(vm: ViewModel, s: Store): (u: Updated)
    ensures StringFor(s, UnitKey).None? ==> u == Updated(vm, s)
    ensures StringFor(s, UnitKey).Some? ==>
              && u.vm == vm.(selectedUnit := LoadTemperatureUnit(s))
              && LoadTemperatureUnit(u.store) == LoadTemperatureUnit(s)
              && StringFor(u.store, UnitKey) == Some(UnitName(LoadTemperatureUnit(s)))
  {
    match StringFor(s, UnitKey)
    case None => Updated(vm, s)
    case Some(name) => SetSelectedUnit(vm, s, UnitFromName(name))
  }

  /** Setting `homeHours`; its observer stores both dates under one key. */
  function SetHomeHours(vm: ViewModel, s: Store, home: HomeHours): (u: Updated)
    ensures u.vm == vm.(homeHours := home)
    ensures UnchangedExcept(s, u.store, {HomeHoursKey})
    ensures StoredHomeHours(u.store) == Some(home)
  {
    var entry := map["start" := VDate(home.start), "end" := VDate(home.end)];
    Updated(vm.(homeHours := home), s[HomeHoursKey := VDict(entry)])
  }

  /** `loadHomeHours()`: the stored home hours, or 08:00 to 20:00. */
  function LoadHomeHours(tz: TimeZone, s: Store): (home: HomeHours)
    ensures StoredHomeHours(s).Some? ==> home == StoredHomeHours(s).value
    ensures StoredHomeHours(s).None? ==> HourOf(tz, home.start) == 8 && HourOf(tz, home.end) == 20
  {
    match StoredHomeHours(s)
    case Some(h) => h
    case None =>
      var start := DateFromHour(tz, 8);
      TwelveHoursLater(tz, start);
      HomeHours(start, start + 12 * SecondsPerHour)
  }

  /** With nothing stored, the app and the pipeline disagree on the home
      hours: the app shows 08:00 to 20:00 while windows are computed for
      00:00 to 12:00.  With stored home hours they agree. */
  lemma HomeHoursDefaultsDiffer(tz: TimeZone, s: Store, now: Instant)
    ensures StoredHomeHours(s).None? ==>
              && HourOf(tz, LoadHomeHours(tz, s).start) == 8 && HourOf(tz, LoadHomeHours(tz, s).end) == 20
              && HourOf(tz, ManagerHomeHours(tz, s, now).start) == 0
              && HourOf(tz, ManagerHomeHours(tz, s, now).end) == 12
    ensures StoredHomeHours(s).Some? ==> LoadHomeHours(tz, s) == ManagerHomeHours(tz, s, now)
  {
  }

  /** The state `init` sets up before any scheduled work runs: home hours
      and unit from the store, the saved location and its name in the
      search field; the refreshes it schedules are `LaunchWithRefreshes`. */
  function Launch(tz: TimeZone, s: Store): (u: Updated)
    ensures u.vm.homeHours == LoadHomeHours(tz, s)
    ensures u.vm.selectedUnit == LoadTemperatureUnit(s)
    ensures u.vm.savedLocation == LoadSavedLocation(s)
    ensures u.vm.lastRefresh == DistantPast && u.vm.currentWeather.None? && !u.vm.isLoading
    ensures UnchangedExcept(s, u.store, {UnitKey})
  {
    var blank := ViewModel("", None, None, None, false, None, Celsius, None, DistantPast,
                           LoadHomeHours(tz, s), None, [], "", "");
    var withUnit := LoadUnitIntoViewModel(blank, s);
    match LoadSavedLocation(s)
    case None => withUnit
    case Some(loc) => withUnit.(vm := withUnit.vm.(savedLocation := Some(loc), searchText := loc.name))
  }

  /** `init()` together with the work it schedules.  With a saved location
      both `loadSavedLocation()` and `init` itself start a refresh that
      bypasses the cooldown; the two are taken to run one after the other,
      at `now1` and `now2`, each with its own answers and identifiers.
      Without a saved location nothing is fetched. */
  function LaunchWithRefreshes(tz: TimeZone, s: Store, exp: PositiveFn,
                               now1: Instant, firstId1: nat, current1: Result<CurrentWeather, FetchError>, service1: ForecastService,
                               now2: Instant, firstId2: nat, current2: Result<CurrentWeather, FetchError>, service2: ForecastService): (u: Updated)
    requires current1.Success? ==> Measurable(current1.value)
    requires current2.Success? ==> Measurable(current2.value)
    ensures LoadSavedLocation(s).None? ==> u == Launch(tz, s)
    ensures LoadSavedLocation(s).Some? ==>
              var f1 := FetchAllWeatherData(Launch(tz, s).store, tz, exp, now1, firstId1, current1, service1, true);
              var f2 := FetchAllWeatherData(f1.store, tz, exp, now2, firstId2, current2, service2, true);
              && u.store == f2.store
              && u.vm.savedLocation == LoadSavedLocation(s)
              && u.vm.homeHours == LoadHomeHours(tz, s)
              && !u.vm.isLoading
  {
    var launched := Launch(tz, s);
    if LoadSavedLocation(s).None? then launched
    else
      var first := UpdateWeather(launched.vm, launched.store, tz, exp, now1, firstId1, false, current1, service1);
      UpdateWeather(first.vm, first.store, tz, exp, now2, firstId2, false, current2, service2)
  }

  /** When both launch refreshes succeed, the second is never turned away,
      however soon after the first it runs: the screen and the store show
      its conditions and its fetch time. */
  lemma LaunchFetchesTwice(tz: TimeZone, s: Store, exp: PositiveFn,
                           now1: Instant, firstId1: nat, current1: Result<CurrentWeather, FetchError>, service1: ForecastService,
                           now2: Instant, firstId2: nat, current2: Result<CurrentWeather, FetchError>, service2: ForecastService)
    requires current1.Success? ==> Measurable(current1.value)
    requires current2.Success? ==> Measurable(current2.value)
    requires LoadSavedLocation(s).Some?
    requires current2.Success? && RequestedForecast(service2, tz, now2).Success?
    ensures var u := LaunchWithRefreshes(tz, s, exp, now1, firstId1, current1, service1, now2, firstId2, current2, service2);
            && u.vm.currentWeather == Some(current2.value)
            && u.vm.lastRefresh == now2
            && DateFor(u.store, LastWeatherFetchKey) == Some(now2)
  {
    var launched := Launch(tz, s);
    var first := UpdateWeather(launched.vm, launched.store, tz, exp, now1, firstId1, false, current1, service1);
    assert !CooldownBlocks(first.vm, now2, false);
    FetchStoresWhatItReturns(first.store, tz, exp, now2, firstId2, current2, service2, 0);
  }
}
