/** The weather step of the activity list (logic.py, `apply_weather_filter`): every row
    of the base-filtered list is annotated with the forecast of its location, optionally
    dropped when its weather preference does not fit the forecast, and its weather details
    are recorded under the row's position in the full table. The forecast service is the
    parameter `respond`, which gives the reply for a latitude and a longitude. */
module WeatherFilter {
  import opened Util
  import opened Activities
  import opened Weather

  /** The hint shown next to an activity. */
  datatype Note =
    | MissingCoordinates          // no coordinates, no weather check
    | UncertainButSunWanted       // 'Nur Sonne' and an uncertain forecast
    | WeatherUnavailable          // the forecast could not be assessed
    | BadButSunWanted             // 'Nur Sonne' and bad weather: dropped
    | GoodButRainWanted           // 'Nur Regen' and good or uncertain weather: dropped
    | UnknownPreference(pref: string)

  /** The four weather columns: note, temperature, icon and description. */
  datatype WeatherInfo = WeatherInfo(note: Option<Note>, temp: Option<real>, icon: Option<string>, desc: Option<string>)

  /** A row of the annotated table: the activity with its weather columns. */
  datatype AnnotatedRow = AnnotatedRow(activity: Activity, info: WeatherInfo)

  datatype Decision = Decision(keep: bool, note: Option<Note>)

  const NoInfo := WeatherInfo(None, None, None, None)

  /** The preference as the source reads it: `str(value)`, so an empty cell becomes "nan". */
  function PrefAsWritten(a: Activity): (p: string)
    ensures a.wetterPref.Some? ==> p == a.wetterPref.value
  {
    if a.wetterPref.Some? then a.wetterPref.value else "nan"
  }

  /** The preference with an empty cell read as 'Egal', as the source's missing-value check
      intends. */
  function Pref(a: Activity): (p: string)
    ensures a.wetterPref.Some? ==> p == a.wetterPref.value
  {
    if a.wetterPref.Some? then a.wetterPref.value else "Egal"
  }

  /** Whether a row with coordinates is kept when the weather filter is on, and its note. */
  function Decide(pref: string, status: Status): Decision
  {
    if pref == "Egal" then Decision(true, None)
    else if pref == "Nur Sonne" then
      match status
      case Good => Decision(true, None)
      case Uncertain => Decision(true, Some(UncertainButSunWanted))
      case Unknown => Decision(true, Some(WeatherUnavailable))
      case Bad => Decision(false, Some(BadButSunWanted))
    else if pref == "Nur Regen" then
      match status
      case Bad => Decision(true, None)
      case Unknown => Decision(true, Some(WeatherUnavailable))
      case _ => Decision(false, Some(GoodButRainWanted))
    else Decision(true, Some(UnknownPreference(pref)))
  }

  /** The decision table: only 'Nur Sonne' on Bad and 'Nur Regen' on Good or Uncertain
      drop a row; an unknown preference is kept with a note naming it. */
  lemma DecideTable(pref: string, status: Status)
    ensures pref == "Egal" ==> Decide(pref, status) == Decision(true, None)
    ensures pref == "Nur Sonne" ==> (!Decide(pref, status).keep <==> status == Bad)
    ensures pref == "Nur Regen" ==> (Decide(pref, status).keep <==> status == Bad || status == Unknown)
    ensures pref != "Egal" && pref != "Nur Sonne" && pref != "Nur Regen" ==>
      Decide(pref, status) == Decision(true, Some(UnknownPreference(pref)))
    ensures !Decide(pref, status).keep ==> Decide(pref, status).note.Some?
  {
  }

  /** Temperature, icon and capitalised description of the representative forecast. */
  function Details(forecasts: Option<seq<Forecast>>): (r: (Option<real>, Option<string>, Option<string>))
    ensures forecasts.None? ==> r == (None, None, None)
  {
    if forecasts.None? || forecasts.value == [] then (None, None, None)
    else
      var rep := Representative(forecasts.value);
      if rep.None? then (None, None, None)
      else (rep.value.temp, rep.value.icon, Some(Capitalize(StrOf(rep.value.description))))
  }

  /** The outcome for one row: its decision and its weather columns. */
  function Assess(a: Activity, day: int, apiKey: string, considerWeather: bool, respond: (real, real) -> ApiResponse): (r: (Decision, WeatherInfo))
    ensures r.0.note == r.1.note
    ensures !considerWeather ==> r.0.keep
  {
    if a.latitude.None? || a.longitude.None? then
      (Decision(true, Some(MissingCoordinates)), WeatherInfo(Some(MissingCoordinates), None, None, None))
    else
      var forecasts := ForecastForDay(Some(apiKey), a.latitude, a.longitude, Some(day), respond(a.latitude.value, a.longitude.value));
      var status := CheckActivityWeatherStatus(forecasts);
      var details := Details(forecasts);
      var d := if considerWeather then Decide(PrefAsWritten(a), status) else Decision(true, None);
      (d, WeatherInfo(d.note, details.0, details.1, details.2))
  }

  /** The base-filtered rows with their weather columns. */
  function Annotate(rows: seq<Activity>, day: int, apiKey: string, considerWeather: bool, respond: (real, real) -> ApiResponse): (r: seq<AnnotatedRow>)
    ensures |r| == |rows|
    ensures forall i :: 0 <= i < |rows| ==> r[i] == AnnotatedRow(rows[i], Assess(rows[i], day, apiKey, considerWeather, respond).1)
  {
    if rows == [] then []
    else
      var last := rows[|rows| - 1];
      Annotate(rows[..|rows| - 1], day, apiKey, considerWeather, respond)
        + [AnnotatedRow(last, Assess(last, day, apiKey, considerWeather, respond).1)]
  }

  /** The annotated rows whose decision keeps them, in order. */
  function KeptRows(rows: seq<Activity>, day: int, apiKey: string, considerWeather: bool, respond: (real, real) -> ApiResponse): (r: seq<AnnotatedRow>)
    ensures |r| <= |rows|
  {
    if rows == [] then []
    else
      var last := rows[|rows| - 1];
      var outcome := Assess(last, day, apiKey, considerWeather, respond);
      KeptRows(rows[..|rows| - 1], day, apiKey, considerWeather, respond)
        + (if outcome.0.keep then [AnnotatedRow(last, outcome.1)] else [])
  }

  /** The position of the first row of `t` with ID `id`. */
  function FirstIndexOf(t: seq<Activity>, id: int): (r: Option<nat>)
    ensures r.None? <==> forall i :: 0 <= i < |t| ==> t[i].id != id
    ensures r.Some? ==> r.value < |t| && t[r.value].id == id && forall j :: 0 <= j < r.value ==> t[j].id != id
  {
    if t == [] then None
    else if t[0].id == id then Some(0)
    else
      var r := FirstIndexOf(t[1..], id);
      if r.None? then None else Some(r.value + 1)
  }

  /** The weather details keyed by the position, in the full table, of the first row with the
      same ID; a later row with the same ID overwrites an earlier one. */
  function WeatherMapOf(rows: seq<Activity>, original: seq<Activity>, day: int, apiKey: string, considerWeather: bool, respond: (real, real) -> ApiResponse): map<nat, WeatherInfo>
  {
    if rows == [] then map[]
    else
      var last := rows[|rows| - 1];
      var m := WeatherMapOf(rows[..|rows| - 1], original, day, apiKey, considerWeather, respond);
      var k := FirstIndexOf(original, last.id);
      if k.None? then m else m[k.value := Assess(last, day, apiKey, considerWeather, respond).1]
  }

  /** The weather check is skipped: no weather service, no rows, no day or no key. */
  predicate Skipped(base: seq<Activity>, day: Option<int>, apiKey: Option<string>, apiConfigured: bool)
  {
    !apiConfigured || base == [] || day.None? || apiKey.None?
  }

  /** `apply_weather_filter`: returns the final rows, the weather map and the annotated rows. */
  method ApplyWeatherFilter(base: seq<Activity>, original: seq<Activity>, day: Option<int>, considerWeather: bool,
                            apiKey: Option<string>, apiConfigured: bool, respond: (real, real) -> ApiResponse)
    returns (final: seq<AnnotatedRow>, weatherMap: map<nat, WeatherInfo>, annotated: seq<AnnotatedRow>)
    ensures Skipped(base, day, apiKey, apiConfigured) ==>
      weatherMap == map[] && final == annotated && |annotated| == |base|
      && forall i :: 0 <= i < |base| ==> annotated[i] == AnnotatedRow(base[i], NoInfo)
    ensures !Skipped(base, day, apiKey, apiConfigured) ==>
      annotated == Annotate(base, day.value, apiKey.value, considerWeather, respond)
      && final == (if considerWeather then KeptRows(base, day.value, apiKey.value, considerWeather, respond) else annotated)
      && weatherMap == WeatherMapOf(base, original, day.value, apiKey.value, considerWeather, respond)
  {
    if !apiConfigured || base == [] || day.None? || apiKey.None? {
      annotated := Map(base, (a: Activity) => AnnotatedRow(a, NoInfo));
      return annotated, map[], annotated;
    }
    var d, key := day.value, apiKey.value;
    annotated, weatherMap := [], map[];
    var kept: seq<AnnotatedRow> := [];
    var i := 0;
    while i < |base|
      invariant 0 <= i <= |base|
      invariant annotated == Annotate(base[..i], d, key, considerWeather, respond)
      invariant kept == KeptRows(base[..i], d, key, considerWeather, respond)
      invariant weatherMap == WeatherMapOf(base[..i], original, d, key, considerWeather, respond)
    {
      var a := base[i];
      LoopStep(base, original, i, d, key, considerWeather, respond);
      var outcome := Assess(a, d, key, considerWeather, respond);
      var row := AnnotatedRow(a, outcome.1);
      annotated := annotated + [row];
      if outcome.0.keep {
        kept := kept + [row];
      }
      var k := FirstIndexOf(original, a.id);
      if k.Some? {
        weatherMap := weatherMap[k.value := outcome.1];
      }
      i := i + 1;
    }
    assert base[..i] == base;
    final := if considerWeather then kept else annotated;
  }

  /** How the three results grow by one row of the loop. */
  lemma LoopStep(base: seq<Activity>, original: seq<Activity>, i: nat, day: int, apiKey: string, considerWeather: bool,
                 respond: (real, real) -> ApiResponse)
    requires i < |base|
    ensures var a := base[i];
      var outcome := Assess(a, day, apiKey, considerWeather, respond);
      var k := FirstIndexOf(original, a.id);
      && Annotate(base[..i + 1], day, apiKey, considerWeather, respond)
         == Annotate(base[..i], day, apiKey, considerWeather, respond) + [AnnotatedRow(a, outcome.1)]
      && KeptRows(base[..i + 1], day, apiKey, considerWeather, respond)
         == KeptRows(base[..i], day, apiKey, considerWeather, respond) + (if outcome.0.keep then [AnnotatedRow(a, outcome.1)] else [])
      && WeatherMapOf(base[..i + 1], original, day, apiKey, considerWeather, respond)
         == (var m := WeatherMapOf(base[..i], original, day, apiKey, considerWeather, respond);
             if k.None? then m else m[k.value := outcome.1])
  {
    var prefix := base[..i + 1];
    assert prefix[..i] == base[..i];
    assert prefix[i] == base[i];
  }

  /** A row without coordinates is always annotated as such and kept. */
  lemma {:induction false} MissingCoordinatesKept(rows: seq<Activity>, day: int, apiKey: string, considerWeather: bool, respond: (real, real) -> ApiResponse, a: Activity)
    requires a in rows && (a.latitude.None? || a.longitude.None?)
    ensures AnnotatedRow(a, WeatherInfo(Some(MissingCoordinates), None, None, None)) in KeptRows(rows, day, apiKey, considerWeather, respond)
  {
    var last := rows[|rows| - 1];
    if a != last {
      assert a in rows[..|rows| - 1] by {
        var i :| 0 <= i < |rows| && rows[i] == a;
        assert rows[..|rows| - 1][i] == a;
      }
      MissingCoordinatesKept(rows[..|rows| - 1], day, apiKey, considerWeather, respond, a);
    }
  }

  /** The final rows are a selection of the annotated rows: each kept row keeps its position
      order and its weather columns, and is one whose decision keeps it. */
  lemma {:induction false} KeptRowsAreSelection(rows: seq<Activity>, day: int, apiKey: string, considerWeather: bool, respond: (real, real) -> ApiResponse)
    ensures IsSubsequence(KeptRows(rows, day, apiKey, considerWeather, respond), Annotate(rows, day, apiKey, considerWeather, respond))
    ensures forall r :: r in KeptRows(rows, day, apiKey, considerWeather, respond) ==>
      r.activity in rows && Assess(r.activity, day, apiKey, considerWeather, respond) == (Decision(true, r.info.note), r.info)
  {
    if rows != [] {
      var init, last := rows[..|rows| - 1], rows[|rows| - 1];
      KeptRowsAreSelection(init, day, apiKey, considerWeather, respond);
      var kept := KeptRows(init, day, apiKey, considerWeather, respond);
      var ann := Annotate(init, day, apiKey, considerWeather, respond);
      var row := AnnotatedRow(last, Assess(last, day, apiKey, considerWeather, respond).1);
      assert IsSubsequence([row], [row]);
      if Assess(last, day, apiKey, considerWeather, respond).0.keep {
        SubsequenceConcat(kept, ann, [row], [row]);
      } else {
        SubsequenceConcat(kept, ann, [], [row]);
        assert kept + [] == kept;
      }
      forall a | a in init ensures a in rows {
        var i :| 0 <= i < |init| && init[i] == a;
        assert rows[i] == a;
      }
    }
  }

  /** Every row whose decision keeps it reaches the final rows, with its weather columns. */
  lemma {:induction false} KeptRowsComplete(rows: seq<Activity>, day: int, apiKey: string, considerWeather: bool, respond: (real, real) -> ApiResponse)
    ensures forall a :: a in rows && Assess(a, day, apiKey, considerWeather, respond).0.keep ==>
      AnnotatedRow(a, Assess(a, day, apiKey, considerWeather, respond).1) in KeptRows(rows, day, apiKey, considerWeather, respond)
  {
    if rows != [] {
      var init, last := rows[..|rows| - 1], rows[|rows| - 1];
      KeptRowsComplete(init, day, apiKey, considerWeather, respond);
      forall a | a in rows && a != last ensures a in init {
        var i :| 0 <= i < |rows| && rows[i] == a;
        assert init[i] == a;
      }
    }
  }

  /** Every key of the weather map is the first position, in the full table, of the ID of some
      annotated row. */
  lemma {:induction false} WeatherMapKeys(rows: seq<Activity>, original: seq<Activity>, day: int, apiKey: string, considerWeather: bool, respond: (real, real) -> ApiResponse)
    ensures forall k :: k in WeatherMapOf(rows, original, day, apiKey, considerWeather, respond) ==>
      k < |original| && (exists a :: a in rows && FirstIndexOf(original, a.id) == Some(k))
  {
    if rows != [] {
      var init, last := rows[..|rows| - 1], rows[|rows| - 1];
      WeatherMapKeys(init, original, day, apiKey, considerWeather, respond);
      forall a | a in init ensures a in rows {
        var i :| 0 <= i < |init| && init[i] == a;
        assert rows[i] == a;
      }
    }
  }

  /** Every annotated row whose ID occurs in the full table has an entry at the first position of
      that ID; when no later row has the same ID, the entry holds this row's weather columns. */
  lemma {:induction false} WeatherMapEntries(rows: seq<Activity>, original: seq<Activity>, day: int, apiKey: string, considerWeather: bool, respond: (real, real) -> ApiResponse)
    ensures forall i :: 0 <= i < |rows| && FirstIndexOf(original, rows[i].id).Some? ==>
      FirstIndexOf(original, rows[i].id).value in WeatherMapOf(rows, original, day, apiKey, considerWeather, respond)
    ensures forall i :: (0 <= i < |rows| && FirstIndexOf(original, rows[i].id).Some?
                         && forall j :: i < j < |rows| ==> rows[j].id != rows[i].id) ==>
      WeatherMapOf(rows, original, day, apiKey, considerWeather, respond)[FirstIndexOf(original, rows[i].id).value]
        == Assess(rows[i], day, apiKey, considerWeather, respond).1
  {
    if rows != [] {
      var init, last := rows[..|rows| - 1], rows[|rows| - 1];
      WeatherMapEntries(init, original, day, apiKey, considerWeather, respond);
      var m := WeatherMapOf(init, original, day, apiKey, considerWeather, respond);
      var k := FirstIndexOf(original, last.id);
      forall i | 0 <= i < |rows| - 1 && FirstIndexOf(original, rows[i].id).Some?
        ensures FirstIndexOf(original, rows[i].id).value in WeatherMapOf(rows, original, day, apiKey, considerWeather, respond)
      {
        assert init[i] == rows[i];
      }
      forall i | 0 <= i < |rows| - 1 && FirstIndexOf(original, rows[i].id).Some?
          && (forall j :: i < j < |rows| ==> rows[j].id != rows[i].id)
        ensures WeatherMapOf(rows, original, day, apiKey, considerWeather, respond)[FirstIndexOf(original, rows[i].id).value]
          == Assess(rows[i], day, apiKey, considerWeather, respond).1
      {
        assert init[i] == rows[i];
        assert forall j :: i < j < |init| ==> init[j] == rows[j];
        assert last.id != rows[i].id;
        if k.Some? {
          assert k.value != FirstIndexOf(original, rows[i].id).value;
        }
      }
    }
  }

  /** Finding: an empty Wetter_Praeferenz turns into the preference "nan", so the row gets an
      "unknown preference" note instead of being treated as 'Egal'. */
  lemma MissingPreferenceAsWritten(a: Activity, status: Status)
    requires a.wetterPref.None?
    ensures Decide(PrefAsWritten(a), status) == Decision(true, Some(UnknownPreference("nan")))
  {
  }

  /** With the intended reading, an empty preference is 'Egal': kept whatever the weather,
      without a note. */
  lemma MissingPreferenceIsEgal(a: Activity, status: Status)
    requires a.wetterPref.None?
    ensures Decide(Pref(a), status) == Decision(true, None)
  {
  }
}
