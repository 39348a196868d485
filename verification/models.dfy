/** The two records the app persists, `SavedLocation` and `HourlyHumidity`,
    and their JSON coding.

    A JSON document is modelled as its tree (`Json`); turning the tree into
    bytes and back is left to the encoder and decoder.  The coding follows
    the records' `CodingKeys`: a keyed object holding exactly those keys,
    with dates written as seconds since the reference date (the default
    `deferredToDate` strategy).  Decoding ignores keys it does not know and
    fails on a missing key or a value of the wrong kind. */
module Models {
  import opened Wrappers
  import opened Calendar
  import opened Text

  datatype SavedLocation = SavedLocation(name: string, subtitle: string, latitude: real, longitude: real)

  /** One forecast hour.  `id` is the `UUID()` each construction draws: it
      is not a coding key, so decoding draws a fresh one too. */
  datatype HourlyHumidity = HourlyHumidity(id: nat, date: Instant, humidity: real)

  datatype Json =
    | JNull
    | JBool(b: bool)
    | JNumber(n: real)
    | JString(s: string)
    | JArray(items: seq<Json>)
    | JObject(fields: map<string, Json>)

  const LocationCodingKeys: set<string> := {"name", "subtitle", "latitude", "longitude"}
  const HourlyCodingKeys: set<string> := {"date", "humidity"}

  /* ---------------- SavedLocation ---------------- */

  function EncodeLocation(l: SavedLocation): (j: Json)
    ensures j.JObject? && j.fields.Keys == LocationCodingKeys
  {
    JObject(map["name" := JString(l.name), "subtitle" := JString(l.subtitle),
                "latitude" := JNumber(l.latitude), "longitude" := JNumber(l.longitude)])
  }

  function DecodeLocation(j: Json): (r: Option<SavedLocation>)
    ensures r.Some? ==> j.JObject? && LocationCodingKeys <= j.fields.Keys
  {
    match j
    case JObject(f) =>
      if && "name" in f && f["name"].JString?
         && "subtitle" in f && f["subtitle"].JString?
         && "latitude" in f && f["latitude"].JNumber?
         && "longitude" in f && f["longitude"].JNumber?
      then Some(SavedLocation(f["name"].s, f["subtitle"].s, f["latitude"].n, f["longitude"].n))
      else None
    case _ => None
  }

  lemma LocationRoundTrip(l: SavedLocation)
    ensures DecodeLocation(EncodeLocation(l)) == Some(l)
  {
  }

  /** A key outside the coding keys never changes what decodes. */
  lemma LocationIgnoresUnknownKeys(f: map<string, Json>, k: string, v: Json)
    requires k !in LocationCodingKeys
    ensures DecodeLocation(JObject(f[k := v])) == DecodeLocation(JObject(f))
  {
    var g := f[k := v];
    assert forall key :: key in LocationCodingKeys ==> (key in g <==> key in f);
    assert forall key :: key in LocationCodingKeys && key in f ==> g[key] == f[key];
  }

  /** `debugDescription`: `"\(name) @ \(latitude),\(longitude)"`, where
      `render` is Swift's textual form of a `Double`. */
  function DebugDescription(l: SavedLocation, render: real -> string): (d: string)
    ensures |d| >= |l.name| + 4
    ensures d[..|l.name|] == l.name && d[|l.name|..|l.name| + 3] == " @ "
    ensures d[|l.name| + 3..] == render(l.latitude) + "," + render(l.longitude)
  {
    l.name + " @ " + render(l.latitude) + "," + render(l.longitude)
  }

  /** Reading the description back: when the name holds no "@", the first
      "@" sits right after the name and its space, so the name is the text
      before it less that space, and the coordinates follow it. */
  lemma DebugDescriptionRecoversName(l: SavedLocation, render: real -> string)
    requires '@' !in l.name
    ensures var d := DebugDescription(l, render);
            && '@' in d
            && IndexOf(d, '@') == |l.name| + 1
            && d[..IndexOf(d, '@') - 1] == l.name
            && d[IndexOf(d, '@') + 2..] == render(l.latitude) + "," + render(l.longitude)
  {
    var d := DebugDescription(l, render);
    var n := |l.name|;
    assert d[n + 1] == '@';
    assert d[..n + 1] == l.name + " ";
  }

  /* ---------------- HourlyHumidity ---------------- */

  function EncodeDate(t: Instant): Json {
    JNumber(t as real)
  }

  /** A date is a number of seconds; the model keeps whole seconds. */
  function DecodeDate(j: Json): (r: Option<Instant>)
    ensures forall t: Instant :: j == EncodeDate(t) ==> r == Some(t)
  {
    if j.JNumber? then Some(j.n.Floor) else None
  }

  function EncodeHour(h: HourlyHumidity): (j: Json)
    ensures j.JObject? && j.fields.Keys == HourlyCodingKeys
  {
    JObject(map["date" := EncodeDate(h.date), "humidity" := JNumber(h.humidity)])
  }

  /** Decoding one hour; the fresh identifier is supplied by the caller. */
  function DecodeHour(j: Json, freshId: nat): (r: Option<HourlyHumidity>)
    ensures r.Some? ==> r.value.id == freshId
  {
    match j
    case JObject(f) =>
      if "date" in f && DecodeDate(f["date"]).Some? && "humidity" in f && f["humidity"].JNumber?
      then Some(HourlyHumidity(freshId, DecodeDate(f["date"]).value, f["humidity"].n))
      else None
    case _ => None
  }

  function EncodeSeries(hours: seq<HourlyHumidity>): (j: Json)
    ensures j.JArray? && |j.items| == |hours|
    ensures forall i :: 0 <= i < |hours| ==> j.items[i] == EncodeHour(hours[i])
  {
    JArray(seq(|hours|, i requires 0 <= i < |hours| => EncodeHour(hours[i])))
  }

  /** Decoding an array of hours: it fails as soon as one element fails; the
      elements receive the fresh identifiers `firstId`, `firstId + 1`, ... */
  function DecodeItems(items: seq<Json>, firstId: nat): (r: Option<seq<HourlyHumidity>>)
    ensures r.Some? ==> |r.value| == |items|
  {
    if |items| == 0 then Some([])
    else
      match DecodeHour(items[0], firstId)
      case None => None
      case Some(h) =>
        match DecodeItems(items[1..], firstId + 1)
        case None => None
        case Some(rest) => Some([h] + rest)
  }

  /** An array decodes exactly when every element decodes with its own fresh
      identifier. */
  lemma {:induction false} DecodeItemsDefined(items: seq<Json>, firstId: nat)
    ensures DecodeItems(items, firstId).Some? <==>
            forall i :: 0 <= i < |items| ==> DecodeHour(items[i], firstId + i).Some?
  {
    if |items| > 0 {
      var tail := items[1..];
      DecodeItemsDefined(tail, firstId + 1);
      forall i | 1 <= i < |items| ensures items[i] == tail[i - 1] && firstId + i == (firstId + 1) + (i - 1) {
      }
      if DecodeHour(items[0], firstId).Some? && DecodeItems(tail, firstId + 1).None? {
        var i :| 0 <= i < |tail| && DecodeHour(tail[i], firstId + 1 + i).None?;
        assert DecodeHour(items[i + 1], firstId + (i + 1)).None?;
      }
    }
  }

  /** A decoded array holds, position by position, what decoding each
      element with its own fresh identifier gives. */
  lemma {:induction false} DecodeItemsElementwise(items: seq<Json>, firstId: nat)
    requires DecodeItems(items, firstId).Some?
    ensures var r := DecodeItems(items, firstId).value;
            forall i :: 0 <= i < |items| ==>
              Some(r[i]) == DecodeHour(items[i], firstId + i) && r[i].id == firstId + i
  {
    if |items| > 0 {
      var tail := items[1..];
      DecodeItemsElementwise(tail, firstId + 1);
      var r := DecodeItems(items, firstId).value;
      var rest := DecodeItems(tail, firstId + 1).value;
      assert r == [DecodeHour(items[0], firstId).value] + rest;
      forall i | 1 <= i < |items|
        ensures items[i] == tail[i - 1] && firstId + i == (firstId + 1) + (i - 1) && r[i] == rest[i - 1]
      {
      }
    }
  }

  function DecodeSeries(j: Json, firstId: nat): Option<seq<HourlyHumidity>> {
    if j.JArray? then DecodeItems(j.items, firstId) else None
  }

  /** Decoding what was encoded gives back every date and humidity in order;
      the identifiers are the freshly drawn ones, not the encoded ones. */
  lemma SeriesRoundTrip(hours: seq<HourlyHumidity>, firstId: nat)
    ensures DecodeSeries(EncodeSeries(hours), firstId).Some?
    ensures var back := DecodeSeries(EncodeSeries(hours), firstId).value;
            && |back| == |hours|
            && forall i :: 0 <= i < |hours| ==>
                 back[i] == HourlyHumidity(firstId + i, hours[i].date, hours[i].humidity)
  {
    var items := EncodeSeries(hours).items;
    forall i | 0 <= i < |items|
      ensures DecodeHour(items[i], firstId + i) == Some(HourlyHumidity(firstId + i, hours[i].date, hours[i].humidity))
    {
      assert items[i] == EncodeHour(hours[i]);
    }
    DecodeItemsDefined(items, firstId);
    DecodeItemsElementwise(items, firstId);
  }

  /** Identity is not carried by date and humidity: decoding one document
      twice, with identifiers drawn from different points of the supply,
      gives hours that agree on every coded field but are different values. */
  lemma FreshIdentity(hours: seq<HourlyHumidity>, id1: nat, id2: nat)
    requires |hours| > 0 && id1 != id2
    ensures DecodeSeries(EncodeSeries(hours), id1).Some? && DecodeSeries(EncodeSeries(hours), id2).Some?
    ensures var a := DecodeSeries(EncodeSeries(hours), id1).value;
            var b := DecodeSeries(EncodeSeries(hours), id2).value;
            && |a| == |b| == |hours|
            && (forall i :: 0 <= i < |hours| ==> a[i].date == b[i].date && a[i].humidity == b[i].humidity)
            && a != b
  {
    SeriesRoundTrip(hours, id1);
    SeriesRoundTrip(hours, id2);
    var a := DecodeSeries(EncodeSeries(hours), id1).value;
    var b := DecodeSeries(EncodeSeries(hours), id2).value;
    assert a[0].id != b[0].id;
  }
}
