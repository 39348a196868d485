# Humidity: a Dafny model of the app's decision logic

Humidity is an iOS app with two widgets. It shows outdoor relative and absolute
humidity for a saved location. It also suggests a two-hour ventilation window
inside the user's "home hours" and compares the outdoor air with indoor
conditions that the user types in. The app and its widgets share an app-group
key/value store.

This project models the logic behind those features:

- **Window selection** (`OptimalWindow`): the window selector, and the two
  "predicted humidity" rules (the app takes the minimum inside the window, the
  widget takes the first hour inside it).
- **Fetch pipeline** (`WeatherManager`):
  - the weather service's answers are parameters;
  - converting the forecast into the hourly series;
  - the home-hours default;
  - what is written to the store.
- **Store** (`Store`, `Models`): the store is a `map` from keys to values. The
  saved location and the hourly series are coded as JSON trees.
- **View model** (`WeatherViewModel`):
  - the refresh state machine and its cooldown;
  - the refresh predicates;
  - the indoor comparison;
  - saving and loading the unit and home-hours preferences.
- **Indoor calculator** (`IndoorCalculator`): the two input sanitisers and the
  choice of message below them.
- **Widgets**:
  - `WidgetRefresh`: the widget refresh intent and its own cooldown;
  - `HumidityWidget`: the humidity widget's entries and timeline;
  - `OptimalWidget`: the ventilation widget's entries, its prediction rule and
    its chart window test.

Supporting modules:

- `Wrappers`: `Option` and `Result`.
- `Calendar`:
  - instants are whole seconds since 2001-01-01 UTC;
  - a time zone is a fixed offset;
  - the hour of day, the start of day, and the date for an hour.
- `Text`:
  - `components(separatedBy:)`;
  - `Double(String)` on digit-and-dot text;
  - decimal rendering of integers.
- `HumidityMath`: temperature conversion through kelvin, and the Magnus
  formula. In the formula `exp` is a parameter about which only positivity is
  known.

What the code does, where that may surprise a reader:

- **Predicted humidity key.** "PredictedHumidity" is declared as a key, but
  nothing ever writes it.
- **Stale window keys.** The window bounds are written only when a window is
  found, so a fetch that finds none leaves the previous bounds in place.
- **Three cooldown boundaries** (`RefreshPredicatesDisjoint`,
  `BoundaryDiffersFromApp`):
  - the view model blocks a refresh when less than 30 seconds have passed;
  - `canRefresh` needs more than 30;
  - the widget intent rejects at 30 seconds or less.
- **Two home-hours defaults** (`HomeHoursDefaultsDiffer`):
  - the pipeline uses 00:00 to 12:00 of the current day;
  - the view model shows 08:00 to 20:00 of a day in year 1.
- **Forecast range.** The hourly forecast is requested from the start of the
  current day for one day. The weather service's forecast is a function of
  the requested range, so the model states which range the fetch asks for.
- **Two refreshes at launch** (`LaunchWithRefreshes`). With a saved location,
  `loadSavedLocation()` and `init` each start a refresh that bypasses the
  cooldown, so launch fetches twice.
- **Where each refresh time lives.**
  - The view model keeps `lastRefresh` in memory only.
  - The pipeline writes "LastWeatherFetch".
  - Only the widget intent writes "LastRefresh".
- **Ties between hours.** The hours inside the home hours are sorted by
  humidity, and the model takes the first least-humid hour in series order. The
  window selector's own contract holds for any tie order.
- **Unit write-back.** The view model's `loadTemperatureUnit` assigns
  `selectedUnit`. That assignment runs the observer, which writes the unit
  name back, so an unknown name is stored again as "fahrenheit".
- **Relative humidity on the ventilation widget.** The widget reads
  "relativeHumidity" after the fetch has written it, so on success it is always
  the fetched value. It is never the 0.0 default.

## Model

| member | source | states |
|---|---|---|
| Calendar.StartOfDay | Humidity/Shared/WeatherShared.swift:84 | the start of day is local midnight and lies at most one day before the instant |
| Calendar.DateFromHour | Humidity/ViewModels/WeatherViewModel.swift:338-339 | the date built from an hour component has exactly that hour |
| Calendar.TwelveHoursLater | Humidity/ViewModels/WeatherViewModel.swift:340 | adding 12 hours to a morning hour gives the same hour plus 12 |
| Calendar.NoonAfterMidnight | Humidity/Shared/WeatherShared.swift:101-102 | midnight plus 12 hours is hour 12 |
| Text.Split | Humidity/Views/IndoorHumidityCalculatorView.swift:33 | one more piece than separators, and no piece contains the separator |
| Text.SplitJoin | Humidity/Views/IndoorHumidityCalculatorView.swift:33 | joining the pieces with the separator restores the text |
| Text.SplitAtSeparator | Humidity/Views/IndoorHumidityCalculatorView.swift:33-34 | the text before the first separator is the first piece, and the rest splits on its own |
| Text.NatText | Humidity/ViewModels/WeatherViewModel.swift:293 | an integer is rendered as digits without a leading zero that read back as the same number |
| Text.ParseDecimal | Humidity/ViewModels/WeatherViewModel.swift:102-103 | digit-and-dot text parses exactly when it has at most one dot and at least one digit; the value is never negative |
| Text.ParseFraction | Humidity/ViewModels/WeatherViewModel.swift:102-103 | digits, a dot and digits (with a digit somewhere) parse to the integer part plus the fraction digits' value divided by ten to the number of fraction digits |
| Text.ParseDigits | Humidity/ViewModels/WeatherViewModel.swift:102-103 | a string of digits parses to its decimal value |
| Models.EncodeLocation | Humidity/Shared/Models.swift:10-19 | the encoded location holds exactly the four coding keys |
| Models.LocationRoundTrip | Humidity/Shared/Models.swift:10-19 | decoding an encoded location gives the location back |
| Models.LocationIgnoresUnknownKeys | Humidity/Shared/Models.swift:17-19 | a key outside the coding keys never changes the decoded location |
| Models.DebugDescription | Humidity/Shared/Models.swift:22-24 | the description is the name, then " @ ", then latitude and longitude joined by a comma |
| Models.DebugDescriptionRecoversName | Humidity/Shared/Models.swift:22-24 | when the name has no "@", the name is the text before the first "@" less one space, and the two coordinates follow " @ " |
| Models.EncodeHour | Humidity/Shared/Models.swift:33-35 | an encoded hour holds exactly the keys date and humidity |
| Models.DecodeHour | Humidity/Shared/Models.swift:28-35 | a decoded hour carries the fresh identifier it was given |
| Models.DecodeItemsDefined | Humidity/Shared/Models.swift:28-35 | an array decodes exactly when every element decodes with its consecutive fresh identifier |
| Models.DecodeItemsElementwise | Humidity/Shared/Models.swift:28-35 | a decoded array holds, position by position, each element's own decoding, with consecutive fresh identifiers |
| Models.SeriesRoundTrip | Humidity/Shared/Models.swift:28-35 | decoding an encoded series restores every date and humidity in order, with new identifiers |
| Models.FreshIdentity | Humidity/Shared/Models.swift:29 | two decodings of one series agree on date and humidity everywhere but are different values |
| HumidityMath.Convert | Humidity/Shared/WeatherShared.swift:76 | converting to the same unit changes nothing; the Fahrenheit/Celsius formulas hold |
| HumidityMath.ConvertRoundTrip | Humidity/ViewModels/WeatherViewModel.swift:107-113 | converting to another unit and back restores the value |
| HumidityMath.VapourPressure | Humidity/Shared/WeatherShared.swift:32 | the saturation vapour pressure is positive |
| HumidityMath.DryAirHoldsNoWater | Humidity/Shared/WeatherShared.swift:31-34 | zero relative humidity gives zero absolute humidity |
| HumidityMath.AbsoluteHumidityLinear | Humidity/Shared/WeatherShared.swift:33 | at a fixed temperature the result is proportional to the relative humidity |
| HumidityMath.AbsoluteHumiditySign | Humidity/Shared/WeatherShared.swift:31-34 | above absolute zero the result is positive iff the relative humidity is, and zero iff it is zero |
| HumidityMath.AbsoluteHumidityIncreasing | Humidity/Shared/WeatherShared.swift:31-34 | above absolute zero more relative humidity gives strictly more absolute humidity |
| OptimalWindow.RelevantHours | Humidity/Shared/WeatherShared.swift:150-156 | an hour is kept iff its hour of day lies between the home start and end hours |
| OptimalWindow.FirstMinimum | Humidity/Shared/WeatherShared.swift:157-159 | the chosen index has the least humidity and every earlier one is strictly more humid |
| OptimalWindow.CalculateOptimalWindow | Humidity/Shared/WeatherShared.swift:142-169 | no window iff no hour is in range (always for overnight home hours); otherwise the window opens at an in-range hour no in-range hour undercuts and closes two hours later |
| OptimalWindow.WindowAtLeast | Humidity/Shared/WeatherShared.swift:157-168 | no window iff there is no hour; otherwise a two-hour window opening at an hour no other hour is drier than |
| OptimalWindow.OutOfRangeIrrelevant | Humidity/Shared/WeatherShared.swift:150-159 | inserting an hour outside the home hours anywhere never changes the window |
| OptimalWindow.SameRelevantSameWindow | Humidity/Shared/WeatherShared.swift:150-168 | two series with the same in-range hours give the same window |
| OptimalWindow.RelevantIdempotent | Humidity/Shared/WeatherShared.swift:150-156 | filtering twice is filtering once |
| OptimalWindow.SelectFromRelevantOnly | Humidity/Shared/WeatherShared.swift:150-168 | selecting from the in-range hours alone gives the same window |
| OptimalWindow.OnlyHoursMatter | Humidity/Shared/WeatherShared.swift:146-156 | home hours with the same start and end hours give the same window, whatever the minutes |
| OptimalWindow.ChosenIsFirstLeast | Humidity/Shared/WeatherShared.swift:157-159 | the hour picked by filtering and sorting is the first least-humid in-range hour of the series |
| OptimalWindow.WindowAtFirstLeast | Humidity/Shared/WeatherShared.swift:157-168 | the window opens at the date of the first least-humid in-range hour |
| OptimalWindow.PointsInWindow | Humidity/ViewModels/WeatherViewModel.swift:91-92 | an hour is kept iff its date lies in the window, both ends included |
| OptimalWindow.WindowMinimumHumidity | Humidity/ViewModels/WeatherViewModel.swift:89-97 | no figure iff no window or no hour inside it; otherwise the least humidity inside, attained by some hour |
| OptimalWindow.WindowMinimumOfSelectedWindow | Humidity/ViewModels/WeatherViewModel.swift:89-97 | for a window selected from the same series there is always a figure, at most every in-range humidity |
| OptimalWindow.ExampleOutOfRangeMinimumIgnored | Humidity/Shared/WeatherShared.swift:150-168 | a drier hour before the home hours is passed over for the in-range one |
| OptimalWindow.ExampleOvernightHomeHours | Humidity/Shared/WeatherShared.swift:156 | home hours 22:00 to 06:00 never give a window |
| WeatherManager.AbsoluteHumidityIgnoresUnit | Humidity/Shared/WeatherShared.swift:76-80 | the same conditions reported in either unit give the same absolute humidity |
| WeatherManager.UnitName | Humidity/ViewModels/WeatherViewModel.swift:172-176 | a unit is stored as "celsius" or "fahrenheit", and as "celsius" exactly when it is Celsius, so the reader turns the name back into the same unit |
| WeatherManager.UnitFromName | Humidity/Shared/WeatherShared.swift:61 | "celsius" reads as Celsius and anything else as Fahrenheit; only the two stored names read back as themselves |
| WeatherManager.LoadTemperatureUnit | Humidity/Shared/WeatherShared.swift:58-62 | no stored string gives Celsius; otherwise Celsius iff the string is "celsius" |
| WeatherManager.SaveLocation | Humidity/Shared/WeatherShared.swift:36-40 | only the location key changes, and loading afterwards gives the saved location |
| WeatherManager.LoadSavedLocation | Humidity/Shared/WeatherShared.swift:42-56 | nothing when the key holds no data or undecodable data; a result always comes from decoding the stored document |
| WeatherManager.StoredHomeHours | Humidity/Shared/WeatherShared.swift:98-104 | home hours are read only from a dictionary holding dates under "start" and "end" |
| WeatherManager.ManagerHomeHours | Humidity/Shared/WeatherShared.swift:97-105 | the stored home hours, or hours 0 to 12 of the current day |
| WeatherManager.HourlyRange | Humidity/Shared/WeatherShared.swift:84-91 | the forecast range starts at local midnight before now and lasts exactly one day |
| WeatherManager.ToHourly | Humidity/Shared/WeatherShared.swift:92-94 | same length and order; each humidity is multiplied by 100 and each hour gets the next fresh identifier |
| WeatherManager.PersistWeatherData | Humidity/Shared/WeatherShared.swift:171-189 | relative humidity in percent, absolute humidity and the encoded series are written; the window bounds only with a window; no other key changes |
| WeatherManager.PersistedWindowReadBack | Humidity/Shared/WeatherShared.swift:185-188 | a written window reads back as written; without one, the previously stored window stays |
| WeatherManager.PersistedSeriesReadBack | Humidity/Shared/WeatherShared.swift:181-183 | the stored series decodes to the persisted dates and humidities |
| WeatherManager.FetchAllWeatherData | Humidity/Shared/WeatherShared.swift:65-122 | the forecast is asked for from local midnight for one day; a failed request writes nothing and rethrows; on success the result is the converted series of that forecast, the window for the manager's home hours, and the store after the fetch time and the persisted data |
| WeatherManager.FetchAsksOnlyForToday | Humidity/Shared/WeatherShared.swift:82-91 | services that give the same answer for today's range give the same result and store, whatever they answer for other ranges |
| WeatherManager.FetchIgnoresForceRefresh | Humidity/Shared/WeatherShared.swift:65 | the force-refresh flag changes neither the result nor the store |
| WeatherManager.StampedPersistReadBack | Humidity/Shared/WeatherShared.swift:112-121 | after the fetch time and the data are written, the series and a found window read back as written, no window keeps the old bounds, and keys outside the written ones are untouched |
| WeatherManager.FetchStoresWhatItReturns | Humidity/Shared/WeatherShared.swift:112-121 | after success the store holds the returned series, the returned window and the fetch time |
| WeatherManager.FetchKeepsUnwrittenKeys | Humidity/Shared/WeatherShared.swift:113-119 | the predicted-humidity key is never touched; a fetch without a window keeps the old bounds; only the pipeline's keys change |
| WeatherManager.FetchWeatherData | Humidity/Shared/WeatherShared.swift:124-140 | fails iff the request fails; otherwise the conditions and their absolute humidity |
| WeatherViewModel.CanRefresh | Humidity/ViewModels/WeatherViewModel.swift:64-66 | when `canRefresh` holds, a refresh with the cooldown enforced is not turned away |
| WeatherViewModel.ShouldDisableRefresh | Humidity/ViewModels/WeatherViewModel.swift:74-76 | the button is disabled exactly when a refresh with the cooldown enforced would be turned away |
| WeatherViewModel.RefreshPredicatesDisjoint | Humidity/ViewModels/WeatherViewModel.swift:64-76 | `canRefresh` and `shouldDisableRefresh` never both hold, and both fail exactly at 30 seconds |
| WeatherViewModel.Ceil | Humidity/ViewModels/WeatherViewModel.swift:292 | the ceiling is the least integer not below the value |
| WeatherViewModel.RateLimitMinutes | Humidity/ViewModels/WeatherViewModel.swift:291-292 | the minutes shown are the remaining seconds (300 if absent) rounded up to whole minutes |
| WeatherViewModel.DefaultRateLimitIsFiveMinutes | Humidity/ViewModels/WeatherViewModel.swift:291-293 | without a remaining value the toast says 5 minutes |
| WeatherViewModel.UpdateWeather | Humidity/ViewModels/WeatherViewModel.swift:260-301 | the four outcomes: a cooldown refusal changes only the toast; success takes every fetched field and the refresh time; a rate limit sets the toast and clears the error; any other error sets the error and clears the current conditions; loading is off on every exit |
| WeatherViewModel.FailureKeepsForecast | Humidity/ViewModels/WeatherViewModel.swift:290-300 | after a failed fetch the series, window and refresh time stay; a rate limit also keeps the current conditions |
| WeatherViewModel.BypassIgnoresLastRefresh | Humidity/ViewModels/WeatherViewModel.swift:260-272 | without the cooldown, the last refresh time never influences the outcome |
| WeatherViewModel.SecondRefreshWithinCooldown | Humidity/ViewModels/WeatherViewModel.swift:272-288 | a cooldown-enforced refresh within 30 seconds of a successful one changes only the toast |
| WeatherViewModel.IndoorAbsoluteHumidity | Humidity/ViewModels/WeatherViewModel.swift:101-116 | for field text of digits and dots (what the sanitisers let through): present iff both fields parse and the humidity is within 0...100; then the formula on the Celsius value |
| WeatherViewModel.HumidityComparisonAdvice | Humidity/ViewModels/WeatherViewModel.swift:118-127 | no advice iff either absolute humidity is missing; "open" iff indoor is strictly above outdoor |
| WeatherViewModel.OptimalWindowHumidity | Humidity/ViewModels/WeatherViewModel.swift:89-97 | no figure iff no window or no hour inside it, both ends included; otherwise the least humidity inside, attained by some hour |
| WeatherViewModel.SetSelectedUnit | Humidity/ViewModels/WeatherViewModel.swift:40-44 | only the unit key changes, and it reads back as the selected unit |
| WeatherViewModel.LoadUnitIntoViewModel | Humidity/ViewModels/WeatherViewModel.swift:179-183 | no stored string changes nothing; otherwise the unit is set and its normalised name is written back |
| WeatherViewModel.SetHomeHours | Humidity/ViewModels/WeatherViewModel.swift:81-85 | only the home-hours key changes, and it reads back as the set hours |
| WeatherViewModel.LoadHomeHours | Humidity/ViewModels/WeatherViewModel.swift:332-344 | the stored home hours, or hours 8 to 20 |
| WeatherViewModel.HomeHoursDefaultsDiffer | Humidity/ViewModels/WeatherViewModel.swift:332-344 | with nothing stored the app shows 8 to 20 while the pipeline uses 0 to 12; with stored hours they agree |
| WeatherViewModel.Launch | Humidity/ViewModels/WeatherViewModel.swift:129-135 | before its scheduled refreshes run, `init` takes the home hours, unit and saved location from the store and may rewrite only the unit key |
| WeatherViewModel.LaunchWithRefreshes | Humidity/ViewModels/WeatherViewModel.swift:129-147 | with a saved location, launch runs two cooldown-bypassing fetches one after the other and keeps the writes of both; without one nothing is fetched |
| WeatherViewModel.LaunchFetchesTwice | Humidity/ViewModels/WeatherViewModel.swift:305-322 | the second launch refresh is never turned away, however soon after the first: on success the screen and the store show its conditions and fetch time |
| IndoorCalculator.CommasToDots | Humidity/Views/IndoorHumidityCalculatorView.swift:23 | every comma becomes a dot and nothing else changes |
| IndoorCalculator.KeepDecimalChars | Humidity/Views/IndoorHumidityCalculatorView.swift:26-27 | a single character is kept exactly when it is a digit or a dot; only digits and dots remain |
| IndoorCalculator.KeepDecimalCharsAppend | Humidity/Views/IndoorHumidityCalculatorView.swift:26-27 | the filter distributes over concatenation, so with the single-character case the kept text is exactly the input's digits and dots in order |
| IndoorCalculator.RemoveExtraDots | Humidity/Views/IndoorHumidityCalculatorView.swift:28-30 | the first character always stays; after it at most one dot remains, and text with at most one dot is untouched |
| IndoorCalculator.DropDotsBeforeLastDot | Humidity/Views/IndoorHumidityCalculatorView.swift:28-30 | after the first character, of several dots only the last stays; every other character before it stays, and everything after it is kept |
| IndoorCalculator.RemoveExtraDotsKeepsLastDot | Humidity/Views/IndoorHumidityCalculatorView.swift:28-30 | a first character, then text, a dot and dot-free text: the first character, the text without its dots, the dot and the rest |
| IndoorCalculator.FilterTemperature | Humidity/Views/IndoorHumidityCalculatorView.swift:23-30 | after the three filtering steps only digits and dots remain |
| IndoorCalculator.FilterKeepsDigits | Humidity/Views/IndoorHumidityCalculatorView.swift:23-30 | every digit of the input survives the filtering steps, in order, and no other digit appears |
| IndoorCalculator.LimitDecimals | Humidity/Views/IndoorHumidityCalculatorView.swift:33-39 | at most one dot survives, with at most two characters after it |
| IndoorCalculator.LimitDecimalsLongestPrefix | Humidity/Views/IndoorHumidityCalculatorView.swift:33-39 | the kept text is the longest prefix of the filtered text with at most one dot and at most two characters after it: the part before the first dot, then the dot and up to two digits |
| IndoorCalculator.LongestShapedPrefixUnique | Humidity/Views/IndoorHumidityCalculatorView.swift:33-39 | that longest prefix is unique, so the previous row determines the kept text completely |
| IndoorCalculator.ExampleDecimalsCut | Humidity/Views/IndoorHumidityCalculatorView.swift:33-44 | "1.234" keeps two decimals as "1.23", and ".5" becomes "0.5" |
| IndoorCalculator.LeadingZero | Humidity/Views/IndoorHumidityCalculatorView.swift:42-44 | text starting with a dot gets "0" in front, any other text is untouched; the result never starts with a dot and keeps the decimal shape |
| IndoorCalculator.CleanTextPassesFilters | Humidity/Views/IndoorHumidityCalculatorView.swift:23-30 | text of digits with at most one dot passes the three filtering steps unchanged |
| IndoorCalculator.LimitDecimalsKeepsWellFormed | Humidity/Views/IndoorHumidityCalculatorView.swift:33-39 | text with at most one dot and at most two characters after it passes the decimal limit unchanged |
| IndoorCalculator.TemperatureProxy | Humidity/Views/IndoorHumidityCalculatorView.swift:18-49 | the output has only digits and dots, at most one dot, at most two characters after it, and never starts with a dot |
| IndoorCalculator.TemperatureProxyMeaning | Humidity/Views/IndoorHumidityCalculatorView.swift:18-49 | the output is the longest decimal-shaped prefix of the filtered input, with "0" in front exactly when the filtered input starts with a dot |
| IndoorCalculator.WellFormedTemperatureFixed | Humidity/Views/IndoorHumidityCalculatorView.swift:18-49 | text already in the output shape passes through unchanged |
| IndoorCalculator.TemperatureProxyIdempotent | Humidity/Views/IndoorHumidityCalculatorView.swift:18-49 | sanitising twice is sanitising once |
| IndoorCalculator.CommaIsDecimalSeparator | Humidity/Views/IndoorHumidityCalculatorView.swift:23-39 | digits, a comma and up to two digits come out with a dot in place of the comma |
| IndoorCalculator.KeepDigits | Humidity/Views/IndoorHumidityCalculatorView.swift:55-56 | a single character is kept exactly when it is a digit; only digits remain, and digit text is kept whole |
| IndoorCalculator.KeepDigitsAppend | Humidity/Views/IndoorHumidityCalculatorView.swift:55-56 | the digit filter distributes over concatenation, so the kept text is exactly the input's digits in order |
| IndoorCalculator.HumidityProxy | Humidity/Views/IndoorHumidityCalculatorView.swift:51-61 | the output is the first three of the input's digits, or all of them when there are fewer |
| IndoorCalculator.HumidityProxyIdempotent | Humidity/Views/IndoorHumidityCalculatorView.swift:51-61 | sanitising twice is sanitising once |
| IndoorCalculator.HumidityAboveHundredPassesField | Humidity/Views/IndoorHumidityCalculatorView.swift:55-58 | "999" passes the field and then yields no indoor absolute humidity |
| IndoorCalculator.Message | Humidity/Views/IndoorHumidityCalculatorView.swift:88-118 | comparison iff both absolute humidities exist; "set a location" iff the outdoor one is missing; the prompt iff both fields are empty; otherwise "Invalid input" |
| IndoorCalculator.ComparisonCarriesAdvice | Humidity/Views/IndoorHumidityCalculatorView.swift:102-105 | a shown comparison always has advice, and it says "open" iff indoor is above outdoor |
| WidgetRefresh.LastRefresh | WidgetHumidityExtension/RefreshIntent.swift:28 | the stored last refresh, or the distant past |
| WidgetRefresh.Perform | WidgetHumidityExtension/RefreshIntent.swift:27-38 | rejected iff not forced and at most 30 seconds have passed, with the store untouched; otherwise only "LastRefresh" becomes now and the humidity widget is reloaded |
| WidgetRefresh.ButtonAlwaysAccepted | WidgetHumidityExtension/WidgetHumidityExtension.swift:156 | the button's forced intent is always accepted |
| WidgetRefresh.FirstRequestAccepted | WidgetHumidityExtension/RefreshIntent.swift:28-31 | with nothing stored every request is accepted |
| WidgetRefresh.UnforcedRequestsSpacedOut | WidgetHumidityExtension/RefreshIntent.swift:29-35 | after an accepted request, a default request is rejected up to 30 seconds later and accepted after |
| WidgetRefresh.BoundaryDiffersFromApp | WidgetHumidityExtension/RefreshIntent.swift:31 | at exactly 30 seconds the intent rejects while the app's cooldown lets a refresh through |
| HumidityWidget.ErrorEntry | WidgetHumidityExtension/WidgetHumidityExtension.swift:91-102 | the error entry carries no reading and no unit |
| HumidityWidget.FetchWeatherEntry | WidgetHumidityExtension/WidgetHumidityExtension.swift:42-88 | no location: error entry with the stored last refresh; failed fetch: error entry dated the distant past; otherwise every reading, temperatures in the stored unit and humidity in percent |
| HumidityWidget.EntryCompleteOrNotice | WidgetHumidityExtension/WidgetHumidityExtension.swift:211-217 | an entry either has every reading or shows "No location set" |
| HumidityWidget.DisplayedTemperatureFaithful | WidgetHumidityExtension/WidgetHumidityExtension.swift:70 | with a location and a successful fetch the entry is complete, and its temperature converted back is the reported temperature |
| HumidityWidget.HumidityTimeline | WidgetHumidityExtension/WidgetHumidityExtension.swift:36-40 | exactly the one entry the fetch produces, dated now, and the next request 60 minutes later |
| HumidityWidget.HumidityTimelineShowsFetch | WidgetHumidityExtension/WidgetHumidityExtension.swift:36-40 | the timeline's entry is complete exactly when a location is saved and the request succeeds; it then shows the reported temperature, and without a location the stored last refresh |
| HumidityWidget.ButtonPressShownWithoutLocation | WidgetHumidityExtension/WidgetHumidityExtension.swift:43-47 | without a location, the entry after a button press shows the time of the press |
| OptimalWidget.ErrorEntry | WidgetOptimalVentilationExtension/WidgetOptimalVentilationExtension.swift:26-37 | no window, prediction, series, humidity or unit, and the distant past as last refresh |
| OptimalWidget.FirstInWindowHumidity | WidgetOptimalVentilationExtension/WidgetOptimalVentilationExtension.swift:72-74 | no figure iff no window or no hour inside; otherwise the humidity of the first hour inside |
| OptimalWidget.WidgetPredictionAtLeastAppMinimum | WidgetOptimalVentilationExtension/WidgetOptimalVentilationExtension.swift:72-74 | the widget and the app agree on whether there is a figure, and the widget's is never below the app's |
| OptimalWidget.WidgetPredictionIsChosenHour | WidgetOptimalVentilationExtension/WidgetOptimalVentilationExtension.swift:72-74 | for a time-ordered series the widget's figure is the least in-range humidity |
| OptimalWidget.FetchedReadings | WidgetOptimalVentilationExtension/WidgetOptimalVentilationExtension.swift:76-77 | after a successful fetch the relative humidity the entry reads from the store is the fetched one in percent, and the unit is the one stored before the fetch |
| OptimalWidget.FetchOptimalEntry | WidgetOptimalVentilationExtension/WidgetOptimalVentilationExtension.swift:58-82 | no location or a failed fetch gives the error entry; otherwise the fetched series and window, the widget's prediction, and the relative humidity and unit read from the store after the fetch |
| OptimalWidget.EntryPredictionIffWindow | WidgetOptimalVentilationExtension/WidgetOptimalVentilationExtension.swift:66-74 | a fetched entry has a prediction iff it has a window, in any order of the forecast hours |
| OptimalWidget.EntryPredictionIsMinimum | WidgetOptimalVentilationExtension/WidgetOptimalVentilationExtension.swift:66-74 | for a time-ordered forecast the prediction is the least home-hours humidity |
| OptimalWidget.ChartPoints | WidgetOptimalVentilationExtension/WidgetOptimalVentilationExtension.swift:175 | the chart draws the first 24 hours, or all when fewer |
| OptimalWidget.HighlightMatchesAppWindow | WidgetOptimalVentilationExtension/WidgetOptimalVentilationExtension.swift:215-218 | `isInWindow`: nothing without a window; otherwise both ends count, a second past either does not, and the highlighted hours are those the app takes its window minimum over |
| OptimalWidget.PredictionIsHighlighted | WidgetOptimalVentilationExtension/WidgetOptimalVentilationExtension.swift:215-218 | the predicted hour is highlighted, and without a window nothing is |
| OptimalWidget.OptimalTimeline | WidgetOptimalVentilationExtension/WidgetOptimalVentilationExtension.swift:52-56 | exactly the one entry the fetch produces, dated now, the next request 60 minutes later, and the store as the fetch left it |
| OptimalWidget.OptimalTimelineRecordsFetch | WidgetOptimalVentilationExtension/WidgetOptimalVentilationExtension.swift:52-78 | when the location is saved and both requests succeed, the store after the timeline holds the fetch time and the series the entry shows, and the entry shows the reported humidity in percent, refreshed now |
| OptimalWidget.OptimalTimelineKeepsStoreOnError | WidgetOptimalVentilationExtension/WidgetOptimalVentilationExtension.swift:52-81 | with no saved location or a failed request the timeline holds only the error entry and the store is untouched |

## Left out

- The weather service, MapKit search and autocomplete, and `WidgetCenter`: each request's outcome is a parameter. The intent returns the kinds it reloads.
- The clock: each operation reads one `now`. Time passing while a request is awaited is not modelled.
- WeatherViewModel.LaunchWithRefreshes: the two launch refreshes are unstructured tasks that may interleave at their awaits; the model runs them one after the other.
- Timers, day-change notifications, the three-second toast dismissal and actor isolation. Store writes are sequential map updates.
- SwiftUI rendering, Charts, `DateFormatter` text and `Extension.swift`.
- `calculateOptimalWindowTime` in the view model is dead code. The manager's unused `cooldown` constant has no effect.
- `selectSuggestion` and the autocomplete delegate callbacks: they are MapKit searches followed by `updateWeather` and `saveLocation`, both modelled.
- HumidityMath.AbsoluteHumidity: requires both denominators nonzero; there `Double` gives an infinity or NaN. No numeric value is proved, since `exp` is only known to be positive.
- HumidityMath.Convert: exact reals instead of `Double` rounding.
- Calendar.HourOf: a fixed-offset time zone; daylight-saving changes and historical offsets are left out.
- Text.ParseDecimal: models `Double(String)` only on text of ASCII digits and dots, the only characters the sanitisers let through. Signs, exponents, "inf" and "nan" are left out.
- IndoorCalculator.TemperatureProxy: works on `char`, not on Swift's extended grapheme clusters, so combining marks are not modelled.
- Store.DoubleFor and Store.StringFor: the store's coercion between numbers and strings is left out; a value of another kind reads as absent or 0.0.
- The app-group suite is taken to exist. Failing to open it would turn every read into its default and every write into nothing.
- JSON encoding and decoding: modelled on a JSON tree; bytes that are not a JSON document are `Unparseable`. Encoding failures for non-finite numbers are left out.
- The "DateError" throw in the pipeline cannot happen, since adding one day to a date always succeeds.
- `HourlyHumidity.id` is a natural number from a supply instead of a random UUID. Fresh identifiers are distinct by construction.
- OptimalWindow.ChosenIsFirstLeast: assumes the sort keeps ties in series order. `CalculateOptimalWindow`'s own contract holds for any order.
- The widgets' `placeholder` and `snapshot` functions: a placeholder is a fixed entry, and a snapshot calls the modelled fetch.
