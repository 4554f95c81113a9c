/** The forecast side of the weather check: keeping the 3-hour forecast entries that
    fall on the chosen day, picking a representative entry and classifying it as
    Good, Bad, Uncertain or Unknown (weather_utils.py). The HTTP request is not
    modelled: the reply of the forecast service is a parameter. */
module Weather {
  import opened Util

  /** A UTC point in time, reduced to what the application looks at: the calendar day
      (a day number) and the hour of the day. */
  datatype Moment = Moment(day: int, hour: nat)

  /** One forecast as handed to the rest of the application. `None` is Python's `None`. */
  datatype Forecast = Forecast(
    time: Option<Moment>,
    temp: Option<real>,
    main: Option<string>,
    description: Option<string>,
    icon: Option<string>)

  /** One element of an entry's `weather` list in the service's reply. */
  datatype WeatherItem = WeatherItem(main: Option<string>, description: Option<string>, icon: Option<string>)

  /** One element of the reply's `list`: `stamp` is `None` when `dt` is missing or not a
      valid timestamp, `weather` is `None` when the entry has no `weather` key. */
  datatype RawEntry = RawEntry(stamp: Option<Moment>, temp: Option<real>, weather: Option<seq<WeatherItem>>)

  /** What the forecast request produced: a network/HTTP failure, or a decoded reply whose
      `cod` field has been turned into a string. */
  datatype ApiResponse = RequestFailed | Reply(cod: string, entries: seq<RawEntry>)

  datatype Status = Good | Bad | Uncertain | Unknown

  // ---------------------------------------------------------------------------
  // Forecasts for one day
  // ---------------------------------------------------------------------------

  /** The first element of the entry's `weather` list, or an empty item when the key is
      missing (an empty list aborts the whole request, see `Aborts`). */
  function ItemOf(e: RawEntry): WeatherItem
  {
    if e.weather.None? || e.weather.value == [] then WeatherItem(None, None, None) else e.weather.value[0]
  }

  function ToForecast(e: RawEntry): (f: Forecast)
    ensures f.time == e.stamp && f.temp == e.temp
  {
    var w := ItemOf(e);
    Forecast(e.stamp, e.temp, w.main, w.description, w.icon)
  }

  predicate OnDay(e: RawEntry, day: int)
  {
    e.stamp.Some? && e.stamp.value.day == day
  }

  /** Temperature, description and icon are all present. */
  predicate Complete(f: Forecast)
  {
    f.temp.Some? && f.description.Some? && f.icon.Some?
  }

  /** An entry of the chosen day whose `weather` list is empty: indexing it raises, and the
      error handler turns the whole request into `None`. */
  predicate Aborts(e: RawEntry, day: int)
  {
    OnDay(e, day) && e.weather == Some([])
  }

  predicate AnyAborts(entries: seq<RawEntry>, day: int)
  {
    exists i :: 0 <= i < |entries| && Aborts(entries[i], day)
  }

  predicate Kept(e: RawEntry, day: int)
  {
    OnDay(e, day) && Complete(ToForecast(e))
  }

  /** `Kept` for one day, as a filter predicate. */
  function KeptOn(day: int): RawEntry -> bool
  {
    e => Kept(e, day)
  }

  /** The forecasts the loop collects from `entries`, in order. */
  function DayForecasts(entries: seq<RawEntry>, day: int): (r: seq<Forecast>)
    ensures |r| <= |entries|
    ensures forall f :: f in r ==> Complete(f) && f.time.Some? && f.time.value.day == day
  {
    if entries == [] then []
    else
      var last := entries[|entries| - 1];
      DayForecasts(entries[..|entries| - 1], day) + (if Kept(last, day) then [ToForecast(last)] else [])
  }

  /** The collected forecasts are exactly the kept entries, converted, in their original order. */
  lemma {:induction false} DayForecastsIsFilterThenConvert(entries: seq<RawEntry>, day: int)
    ensures DayForecasts(entries, day) == Map(Filter(entries, KeptOn(day)), ToForecast)
  {
    if entries != [] {
      var init, last := entries[..|entries| - 1], entries[|entries| - 1];
      var p := KeptOn(day);
      DayForecastsIsFilterThenConvert(init, day);
      assert entries == init + [last];
      FilterAppend(init, [last], p);
      MapAppend(Filter(init, p), Filter([last], p), ToForecast);
      KeptSingle(last, day);
      calc {
        Map(Filter(entries, p), ToForecast);
        Map(Filter(init, p), ToForecast) + Map(Filter([last], p), ToForecast);
        DayForecasts(init, day) + (if Kept(last, day) then [ToForecast(last)] else []);
      }
    }
  }

  lemma KeptSingle(x: RawEntry, day: int)
    ensures Map(Filter([x], KeptOn(day)), ToForecast) == if Kept(x, day) then [ToForecast(x)] else []
  {
    assert [x][1..] == [];
  }

  lemma {:induction false} MapAppend<T, U>(a: seq<T>, b: seq<T>, f: T -> U)
    ensures Map(a + b, f) == Map(a, f) + Map(b, f)
  {
  }

  /** `get_weather_forecast_for_day` with the reply of the service given: `None` when the key,
      a coordinate or the date is missing, when the request failed or `cod` is not "200",
      when an entry of the day has an empty `weather` list, or when no complete entry of the
      day remains. */
  function ForecastForDay(apiKey: Option<string>, lat: Option<real>, lon: Option<real>, target: Option<int>, response: ApiResponse): Option<seq<Forecast>>
  {
    if apiKey.None? || apiKey.value == "" || lat.None? || lon.None? || target.None? then None
    else if response.RequestFailed? || response.cod != "200" then None
    else if AnyAborts(response.entries, target.value) then None
    else
      var daily := DayForecasts(response.entries, target.value);
      if daily == [] then None else Some(daily)
  }

  /** The imperative loop of `get_weather_forecast_for_day`, proved against `ForecastForDay`. */
  method GetWeatherForecastForDay(apiKey: Option<string>, lat: Option<real>, lon: Option<real>, target: Option<int>, response: ApiResponse)
    returns (r: Option<seq<Forecast>>)
    ensures r == ForecastForDay(apiKey, lat, lon, target, response)
  {
    if apiKey.None? || apiKey.value == "" || lat.None? || lon.None? || target.None? {
      return None;
    }
    if response.RequestFailed? || response.cod != "200" {
      return None;
    }
    var entries, day := response.entries, target.value;
    var daily: seq<Forecast> := [];
    var i := 0;
    while i < |entries|
      invariant 0 <= i <= |entries|
      invariant daily == DayForecasts(entries[..i], day)
      invariant !AnyAborts(entries[..i], day)
    {
      var e := entries[i];
      ForecastStep(entries, i, day);
      if e.stamp.Some? && e.stamp.value.day == day {
        if e.weather.Some? && e.weather.value == [] {
          assert Aborts(entries[i], day);
          return None;
        }
        var w := if e.weather.None? then WeatherItem(None, None, None) else e.weather.value[0];
        var f := Forecast(e.stamp, e.temp, w.main, w.description, w.icon);
        if f.temp.Some? && f.description.Some? && f.icon.Some? {
          daily := daily + [f];
        }
      }
      i := i + 1;
    }
    assert entries[..i] == entries;
    if daily == [] {
      return None;
    }
    return Some(daily);
  }

  lemma ForecastStep(entries: seq<RawEntry>, i: nat, day: int)
    requires i < |entries|
    ensures DayForecasts(entries[..i + 1], day)
      == DayForecasts(entries[..i], day) + (if Kept(entries[i], day) then [ToForecast(entries[i])] else [])
    ensures AnyAborts(entries[..i + 1], day) <==> AnyAborts(entries[..i], day) || Aborts(entries[i], day)
  {
    var prefix := entries[..i + 1];
    assert prefix[..i] == entries[..i];
    assert prefix[i] == entries[i];
  }

  /** Without a key, coordinates or a date the reply of the service plays no part. */
  lemma ForecastForDayGuard(apiKey: Option<string>, lat: Option<real>, lon: Option<real>, target: Option<int>, response: ApiResponse)
    requires apiKey.None? || apiKey.value == "" || lat.None? || lon.None? || target.None?
    ensures ForecastForDay(apiKey, lat, lon, target, response) == None
  {
  }

  /** A successful result is a non-empty list of complete forecasts of the target day, each of
      which comes from an entry of the reply. */
  lemma ForecastForDaySound(apiKey: Option<string>, lat: Option<real>, lon: Option<real>, target: Option<int>, response: ApiResponse)
    requires ForecastForDay(apiKey, lat, lon, target, response).Some?
    ensures var fs := ForecastForDay(apiKey, lat, lon, target, response).value;
      fs != [] && target.Some? && response.Reply? &&
      forall f :: f in fs ==>
        (Complete(f) && f.time.Some? && f.time.value.day == target.value
         && exists e :: e in response.entries && ToForecast(e) == f)
  {
    var fs := ForecastForDay(apiKey, lat, lon, target, response).value;
    DayForecastsIsFilterThenConvert(response.entries, target.value);
    var kept := Filter(response.entries, KeptOn(target.value));
    forall f | f in fs ensures exists e :: e in response.entries && ToForecast(e) == f {
      var j :| 0 <= j < |fs| && fs[j] == f;
      assert kept[j] in response.entries;
    }
  }

  // ---------------------------------------------------------------------------
  // Classification
  // ---------------------------------------------------------------------------

  const LightRainKeywords: seq<string> := ["leichter regen", "niesel", "drizzle", "light rain"]
  const BadWeatherKeywords: seq<string> :=
    ["regen", "schauer", "gewitter", "schnee", "hagel", "thunderstorm", "squall", "tornado",
     "mist", "smoke", "haze", "dust", "fog", "sand", "ash"]
  const BadMainConditions: seq<string> :=
    ["rain", "snow", "thunderstorm", "squall", "tornado", "mist", "smoke", "haze", "dust", "fog", "sand", "ash"]

  /** Python's `str(x)` for an optional string: `None` prints as "None". */
  function StrOf(x: Option<string>): (s: string)
    ensures x.Some? ==> s == x.value
  {
    if x.Some? then x.value else "None"
  }

  /** An entry whose time is a real datetime. */
  predicate Valid(f: Forecast)
  {
    f.time.Some?
  }

  predicate Midday(f: Forecast)
  {
    f.time.Some? && f.time.value.hour >= 12
  }

  /** The first element of `fs` satisfying `p`, if any (Python's `next(..., None)`). */
  function FirstWhere(fs: seq<Forecast>, p: Forecast -> bool): (r: Option<Forecast>)
    ensures r.None? <==> forall i :: 0 <= i < |fs| ==> !p(fs[i])
    ensures r.Some? ==>
      exists i :: (0 <= i < |fs| && fs[i] == r.value && p(fs[i]) && forall j :: 0 <= j < i ==> !p(fs[j]))
  {
    if fs == [] then None
    else if p(fs[0]) then Some(fs[0])
    else
      var r := FirstWhere(fs[1..], p);
      if r.Some? then
        var i :| 0 <= i < |fs[1..]| && fs[1..][i] == r.value && p(fs[1..][i])
          && forall j :: 0 <= j < i ==> !p(fs[1..][j]);
        assert fs[i + 1] == r.value;
        assert forall j :: 1 <= j < i + 1 ==> fs[j] == fs[1..][j - 1];
        r
      else r
  }

  /** The first valid entry from noon on, otherwise the first valid entry; `None` when no
      entry is valid. */
  function Representative(fs: seq<Forecast>): Option<Forecast>
  {
    var midday := FirstWhere(fs, Midday);
    if midday.Some? then midday else FirstWhere(fs, Valid)
  }

  lemma RepresentativeChoice(fs: seq<Forecast>)
    ensures Representative(fs).None? <==> forall i :: 0 <= i < |fs| ==> !Valid(fs[i])
    ensures (exists i :: 0 <= i < |fs| && Midday(fs[i])) ==>
      Representative(fs).Some? && Midday(Representative(fs).value)
      && exists i :: 0 <= i < |fs| && fs[i] == Representative(fs).value && forall j :: 0 <= j < i ==> !Midday(fs[j])
    ensures (forall i :: 0 <= i < |fs| ==> !Midday(fs[i])) && (exists i :: 0 <= i < |fs| && Valid(fs[i])) ==>
      Representative(fs).Some? && Valid(Representative(fs).value)
      && exists i :: 0 <= i < |fs| && fs[i] == Representative(fs).value && forall j :: 0 <= j < i ==> !Valid(fs[j])
  {
    var midday := FirstWhere(fs, Midday);
    if midday.Some? {
      var i :| 0 <= i < |fs| && fs[i] == midday.value && Midday(fs[i]);
      assert Valid(fs[i]);
    }
  }

  /** The rule table of `check_activity_weather_status` on the lower-cased `main` and
      `description` of the representative forecast. */
  function Classify(main: string, description: string): Status
  {
    if ContainsAny(description, LightRainKeywords) || main == "drizzle" then Uncertain
    else if ContainsAny(description, BadWeatherKeywords) || main in BadMainConditions then Bad
    else if main == "clear" then Good
    else Uncertain
  }

  function CheckActivityWeatherStatus(forecasts: Option<seq<Forecast>>): (s: Status)
  {
    if forecasts.None? || forecasts.value == [] then Unknown
    else
      var rep := Representative(forecasts.value);
      if rep.None? then Unknown
      else Classify(Lower(StrOf(rep.value.main)), Lower(StrOf(rep.value.description)))
  }

  /** "Unknown" means exactly that no entry with a datetime was available. */
  lemma UnknownIffNoValidEntry(forecasts: Option<seq<Forecast>>)
    ensures CheckActivityWeatherStatus(forecasts) == Unknown <==>
      forecasts.None? || forall i :: 0 <= i < |forecasts.value| ==> !Valid(forecasts.value[i])
  {
    if forecasts.Some? {
      RepresentativeChoice(forecasts.value);
      var rep := Representative(forecasts.value);
      if forecasts.value != [] && rep.Some? {
        ClassifyIsKnown(Lower(StrOf(rep.value.main)), Lower(StrOf(rep.value.description)));
      }
    }
  }

  lemma ClassifyIsKnown(main: string, description: string)
    ensures Classify(main, description) != Unknown
  {
  }

  /** The precedence of the rules: light rain wins over every bad-weather keyword, bad weather
      wins over a clear sky, and nothing else is Good. */
  lemma ClassifyPrecedence(main: string, description: string)
    ensures ContainsAny(description, LightRainKeywords) || main == "drizzle" ==> Classify(main, description) == Uncertain
    ensures Classify(main, description) == Bad <==>
      !(ContainsAny(description, LightRainKeywords) || main == "drizzle")
      && (ContainsAny(description, BadWeatherKeywords) || main in BadMainConditions)
    ensures Classify(main, description) == Good <==>
      main == "clear" && !ContainsAny(description, LightRainKeywords)
      && !ContainsAny(description, BadWeatherKeywords)
    ensures Classify(main, description) != Unknown
  {
  }

  /** "leichter regen" contains the bad keyword "regen" and yet counts as Uncertain. */
  lemma LightRainBeatsRain()
    ensures ContainsAny("leichter regen", BadWeatherKeywords)
    ensures Classify("rain", "leichter regen") == Uncertain
  {
    ContainsAt("leichter regen", "regen", 9);
    assert "regen" in BadWeatherKeywords;
    ContainsAt("leichter regen", "leichter regen", 0);
    assert "leichter regen" in LightRainKeywords;
  }
}
