/** `RefreshIntent`: the widget button's app intent, with its own cooldown
    kept in the app-group store under "LastRefresh". */
module WidgetRefresh {
  import opened Wrappers
  import opened Calendar
  import opened Store
  import WeatherViewModel

  datatype RefreshIntent = RefreshIntent(forceRefresh: bool)

  /** `init()`: the parameter's declared default. */
  const DefaultIntent := RefreshIntent(false)

  /** The intent both widgets attach to their refresh button. */
  const ButtonIntent := RefreshIntent(true)

  const IntentCooldown: int := 30

  /** The timeline kind the intent reloads. */
  const HumidityWidgetKind := "WidgetHumidityExtension"

  /** The `NSError` thrown when the cooldown turns a request away. */
  datatype IntentError = IntentError(domain: string, code: int, description: string)

  const CooldownError := IntentError("WidgetError", 1, "Wait 30 seconds between refreshes")

  /** The result of `perform()`: the timeline kinds reloaded, or the error
      thrown; and the store afterwards. */
  datatype Performed = Performed(result: Result<seq<string>, IntentError>, store: Store)

  /** The last refresh the store records, or the distant past. */
  function LastRefresh(s: Store): (t: Instant)
    ensures DateFor(s, LastRefreshKey).Some? ==> t == DateFor(s, LastRefreshKey).value
    ensures DateFor(s, LastRefreshKey).None? ==> t == DistantPast
  {
    DateFor(s, LastRefreshKey).GetOr(DistantPast)
  }

  /** `perform()`: accepted when forced or when more than 30 seconds have
      passed since the stored last refresh; an accepted request records
      `now` and reloads the humidity widget, a rejected one writes nothing. */
  function Perform(intent: RefreshIntent, s: Store, now: Instant): (p: Performed)
    ensures p.result.Failure? <==> !intent.forceRefresh && now - LastRefresh(s) <= IntentCooldown
    ensures p.result.Failure? ==> p == Performed(Failure(CooldownError), s)
    ensures p.result.Success? ==>
              && p.result.value == [HumidityWidgetKind]
              && UnchangedExcept(s, p.store, {LastRefreshKey})
              && LastRefresh(p.store) == now
  {
    if intent.forceRefresh || now - LastRefresh(s) > IntentCooldown then
      Performed(Success([HumidityWidgetKind]), s[LastRefreshKey := VDate(now)])
    else
      Performed(Failure(CooldownError), s)
  }

  /** The button's forced intent is never turned away. */
  lemma ButtonAlwaysAccepted(s: Store, now: Instant)
    ensures Perform(ButtonIntent, s, now).result.Success?
  {
  }

  /** With nothing recorded, any time after the distant past plus the
      cooldown is accepted. */
  lemma FirstRequestAccepted(intent: RefreshIntent, s: Store, now: Instant)
    requires LastRefreshKey !in s
    requires now > DistantPast + IntentCooldown
    ensures Perform(intent, s, now).result.Success?
  {
  }

  /** After an accepted request, an unforced one is rejected up to and
      including 30 seconds later, and accepted from 31 seconds on. */
  lemma UnforcedRequestsSpacedOut(intent: RefreshIntent, s: Store, t1: Instant, t2: Instant)
    requires Perform(intent, s, t1).result.Success?
    ensures var second := Perform(DefaultIntent, Perform(intent, s, t1).store, t2);
            second.result.Failure? <==> t2 <= t1 + IntentCooldown
  {
  }

  /** The intent rejects at exactly 30 seconds where the app's own cooldown
      already lets a refresh through. */
  lemma BoundaryDiffersFromApp(s: Store, vm: WeatherViewModel.ViewModel, now: Instant)
    requires DateFor(s, LastRefreshKey) == Some(vm.lastRefresh)
    requires now == vm.lastRefresh + IntentCooldown
    ensures Perform(DefaultIntent, s, now).result.Failure?
    ensures !WeatherViewModel.CooldownBlocks(vm, now, true)
  {
  }
}
