/**
 * Ingestion and notification glue: fetch the six fixed cities when the
 * weather table is due for an update, sweep old readings, convert units, and
 * turn the warning and summary queries into messages and report rows.
 *
 * The weather service and the message generator are passed in as functions:
 * fetch(city) either yields an observation or fails, sendWarning(city) and
 * sendSummary(summary) yield the message text.
 */
module DataGen {
  import opened Results
  import opened WeatherDb
  import ReportDb

  /** The cities callCities fetches, in fetch order. */
  const Cities: seq<string> := ["Delhi", "Mumbai", "Chennai", "Bangalore", "Kolkata", "Hyderabad"]

  /** The fields the weather service reports for a city (temperatures in degrees Celsius). */
  datatype Observation = Observation(
    temperature: real,
    temperatureMax: real,
    temperatureMin: real,
    detailedStatus: string,
    feelsLike: real,
    windSpeed: real,
    humidity: real)

  /** A fetch that raised, for the named city. */
  datatype FetchFailure = FetchFailure(city: string, cause: string)

  /** The observation fields a stored reading carries, read back out of its columns. */
  function ObservationOf(r: Reading): Observation
  {
    Observation(r.temperature, r.temperatureMax, r.temperatureMin, r.weather, r.feelsLike, r.windSpeed, r.humidity)
  }

  /**
   * The weather_data record getWeather builds from one observation taken at
   * time now: it is for city, stamped now, and loses no field of the observation.
   */
  function ReadingOf(city: string, now: int, obs: Observation): (r: Reading)
    ensures r.city == city && r.dateTime == now
    ensures ObservationOf(r) == obs
  {
    Reading(city, now, obs.temperature, obs.temperatureMax, obs.temperatureMin,
            obs.detailedStatus, obs.feelsLike, obs.windSpeed, obs.humidity)
  }

  /**
   * getWeather(city): fetch, build the record, append it to the weather table
   * and return it. A failing fetch stores nothing and propagates.
   */
  method GetWeather(store: WeatherStore, city: string, now: int, fetch: string -> Result<Observation, string>)
    returns (res: Result<Reading, FetchFailure>)
    modifies store
    ensures fetch(city).Err? ==> res == Err(FetchFailure(city, fetch(city).error)) && store.rows == old(store.rows)
    ensures fetch(city).Ok? ==> res == Ok(ReadingOf(city, now, fetch(city).value))
    ensures fetch(city).Ok? ==> store.rows == old(store.rows) + [ReadingOf(city, now, fetch(city).value)]
  {
    var data := fetch(city);
    if data.Err? {
      return Err(FetchFailure(city, data.error));
    }
    var r := ReadingOf(city, now, data.value);
    store.AddWeather(r.city, r.dateTime, r.temperature, r.temperatureMax, r.temperatureMin,
                     r.weather, r.feelsLike, r.windSpeed, r.humidity);
    assert store.rows == old(store.rows) + [r];
    return Ok(r);
  }

  /**
   * The records fetched for cities, in order, up to (not including) the
   * first city whose fetch fails.
   */
  function Fetched(cities: seq<string>, now: int, fetch: string -> Result<Observation, string>): (data: seq<Reading>)
    ensures |data| <= |cities|
  {
    if |cities| == 0 then []
    else
      var before := Fetched(cities[..|cities| - 1], now, fetch);
      var city := cities[|cities| - 1];
      if |before| == |cities| - 1 && fetch(city).Ok? then before + [ReadingOf(city, now, fetch(city).value)]
      else before
  }

  /**
   * The fetched records are one per city, in city order, for a prefix of the
   * cities; the prefix stops exactly at the first failing fetch.
   */
  lemma {:induction false} FetchedSpec(cities: seq<string>, now: int, fetch: string -> Result<Observation, string>)
    ensures |Fetched(cities, now, fetch)| <= |cities|
    ensures forall i :: 0 <= i < |Fetched(cities, now, fetch)| ==>
      fetch(cities[i]).Ok? && Fetched(cities, now, fetch)[i] == ReadingOf(cities[i], now, fetch(cities[i]).value)
    ensures |Fetched(cities, now, fetch)| < |cities| ==> fetch(cities[|Fetched(cities, now, fetch)|]).Err?
  {
    if |cities| > 0 {
      var init := cities[..|cities| - 1];
      FetchedSpec(init, now, fetch);
      assert forall i :: 0 <= i < |init| ==> init[i] == cities[i];
    }
  }

  /** Fetching one more city after an unbroken prefix extends the fetched records by that city. */
  lemma FetchedStep(cities: seq<string>, i: nat, now: int, fetch: string -> Result<Observation, string>)
    requires i < |cities| && |Fetched(cities[..i], now, fetch)| == i && fetch(cities[i]).Ok?
    ensures Fetched(cities[..i + 1], now, fetch) == Fetched(cities[..i], now, fetch) + [ReadingOf(cities[i], now, fetch(cities[i]).value)]
  {
    assert cities[..i + 1][..i] == cities[..i];
  }

  /** Once a fetch has failed, the later cities add nothing. */
  lemma {:induction false} FetchedStops(cities: seq<string>, i: nat, now: int, fetch: string -> Result<Observation, string>)
    requires i < |cities| && |Fetched(cities[..i], now, fetch)| == i && fetch(cities[i]).Err?
    ensures Fetched(cities, now, fetch) == Fetched(cities[..i], now, fetch)
    decreases |cities|
  {
    if |cities| == i + 1 {
      assert cities[..|cities| - 1] == cities[..i];
    } else {
      var init := cities[..|cities| - 1];
      assert init[..i] == cities[..i] && init[i] == cities[i];
      FetchedStops(init, i, now, fetch);
      FetchedSpec(init, now, fetch);
    }
  }

  /**
   * callCities: when the table is due, fetch the six cities in order, append
   * each record as it arrives, then sweep readings older than 24 hours once.
   * A failing fetch leaves the earlier records stored, skips the sweep and
   * propagates. When the table is not due nothing is fetched or changed.
   */
  method CallCities(store: WeatherStore, now: int, fetch: string -> Result<Observation, string>)
    returns (res: Result<seq<Reading>, FetchFailure>)
    modifies store
    ensures !ShouldUpdateWeather(old(store.rows), now) ==> res == Ok([]) && store.rows == old(store.rows)
    ensures ShouldUpdateWeather(old(store.rows), now) && |Fetched(Cities, now, fetch)| == |Cities| ==>
      res == Ok(Fetched(Cities, now, fetch))
      && store.rows == Retained(old(store.rows) + Fetched(Cities, now, fetch), now - DaySeconds)
    ensures ShouldUpdateWeather(old(store.rows), now) && |Fetched(Cities, now, fetch)| < |Cities| ==>
      var city := Cities[|Fetched(Cities, now, fetch)|];
      fetch(city).Err? && res == Err(FetchFailure(city, fetch(city).error))
      && store.rows == old(store.rows) + Fetched(Cities, now, fetch)
  {
    if !ShouldUpdateWeather(store.rows, now) {
      return Ok([]);
    }
    var data: seq<Reading> := [];
    var i := 0;
    while i < |Cities|
      invariant 0 <= i <= |Cities|
      invariant data == Fetched(Cities[..i], now, fetch) && |data| == i
      invariant store.rows == old(store.rows) + data
    {
      var r := GetWeather(store, Cities[i], now, fetch);
      if r.Err? {
        FetchedStops(Cities, i, now, fetch);
        FetchedSpec(Cities, now, fetch);
        return Err(r.error);
      }
      FetchedStep(Cities, i, now, fetch);
      data := data + [r.value];
      i := i + 1;
    }
    assert Cities[..i] == Cities;
    store.DropDataBefore24Hours(now);
    return Ok(data);
  }

  /** When every fetch succeeds, callCities returns one record per city, in the order of Cities, all stamped now. */
  lemma AllFetched(now: int, fetch: string -> Result<Observation, string>)
    requires forall c :: c in Cities ==> fetch(c).Ok?
    ensures |Fetched(Cities, now, fetch)| == |Cities|
    ensures forall i :: 0 <= i < |Cities| ==>
      Fetched(Cities, now, fetch)[i].city == Cities[i] && Fetched(Cities, now, fetch)[i].dateTime == now
  {
    FetchedSpec(Cities, now, fetch);
  }

  /**
   * Right after a complete ingest at time now, the freshness gate is closed:
   * the new readings survive the sweep and are younger than 360 seconds.
   */
  lemma NotDueAfterIngest(rows: seq<Reading>, readings: seq<Reading>, now: int)
    requires |readings| > 0
    requires forall i :: 0 <= i < |readings| ==> readings[i].dateTime == now
    ensures !ShouldUpdateWeather(Retained(rows + readings, now - DaySeconds), now)
  {
    var all := rows + readings;
    var kept := Retained(all, now - DaySeconds);
    RetainedExactly(all, now - DaySeconds);
    assert all[|rows|] == readings[0];
    assert readings[0] in kept;
    var k :| 0 <= k < |kept| && kept[k] == readings[0];
    assert now - kept[k].dateTime < FreshnessSeconds;
  }

  /** C2F: degrees Celsius to degrees Fahrenheit. */
  function C2F(c: real): (f: real)
    ensures (f - 32.0) * 5.0 / 9.0 == c
  {
    c * 9.0 / 5.0 + 32.0
  }

  /** C2K: degrees Celsius to kelvin. */
  function C2K(c: real): (k: real)
    ensures k - 273.15 == c
  {
    c + 273.15
  }

  /** The conversions take the values the unit tests expect at 32 degrees Celsius. */
  lemma ConversionsAt32()
    ensures C2F(32.0) == 89.6
    ensures C2K(32.0) == 305.15
  {
  }

  /** C2F is undone by F = C * 9/5 + 32 solved for C, and is strictly increasing. */
  lemma C2FInvertible(c: real, d: real)
    ensures (C2F(c) - 32.0) * 5.0 / 9.0 == c
    ensures c < d ==> C2F(c) < C2F(d)
  {
  }

  /** C2K is undone by subtracting 273.15, and absolute zero is -273.15 degrees Celsius. */
  lemma C2KInvertible(c: real)
    ensures C2K(c) - 273.15 == c
    ensures C2K(c) >= 0.0 <==> c >= -273.15
  {
  }

  /** Both conversions agree: Fahrenheit follows from kelvin by the same linear map. */
  lemma ConversionsAgree(c: real)
    ensures C2F(c) == (C2K(c) - 273.15) * 9.0 / 5.0 + 32.0
  {
  }

  /** warn(city): the generated warning when Warning(city) holds, otherwise "No warning". */
  function Warn(rows: seq<Reading>, city: string, sendWarning: string -> string): (msg: string)
    ensures !Warning(rows, city) ==> msg == "No warning"
    ensures msg != "No warning" ==> Warning(rows, city) && msg == sendWarning(city)
  {
    if Warning(rows, city) then sendWarning(city) else "No warning"
  }

  /**
   * As long as no generated warning reads "No warning", warn answers
   * "No warning" exactly when the two newest readings of the city are not
   * both above 35.
   */
  lemma WarnIff(rows: seq<Reading>, city: string, sendWarning: string -> string)
    requires sendWarning(city) != "No warning"
    ensures Warn(rows, city, sendWarning) == "No warning" <==>
      !exists i, j :: LatestTwo(rows, city, i, j) && rows[i].temperature > HeatThreshold && rows[j].temperature > HeatThreshold
    ensures Warn(rows, city, sendWarning) != "No warning" ==> Warn(rows, city, sendWarning) == sendWarning(city)
  {
    WarningIff(rows, city);
  }

  /** A reading of another city does not change what warn answers for city. */
  lemma WarnIgnoresOtherCities(rows: seq<Reading>, r: Reading, city: string, sendWarning: string -> string)
    requires r.city != city
    ensures Warn(rows + [r], city, sendWarning) == Warn(rows, city, sendWarning)
  {
    WarningIgnoresOtherCities(rows, r, city);
  }

  /**
   * summary(city): compute today's summary, upsert it with every statistic
   * in its own column, and return the generated message. With no reading
   * today Summary fails, nothing is stored and the failure propagates.
   */
  method Summarize(weather: WeatherStore, reports: ReportDb.ReportStore, city: string, now: int,
                   sendSummary: DailySummary -> string)
    returns (res: Result<string, SummaryError>)
    requires reports.Valid()
    modifies reports
    ensures reports.Valid()
    ensures Summary(weather.rows, city, now).Err? ==>
      res == Err(NoReadingToday(city)) && reports.table == old(reports.table)
    ensures Summary(weather.rows, city, now).Ok? ==>
      var s := Summary(weather.rows, city, now).value;
      res == Ok(sendSummary(s)) && reports.table == ReportDb.Upsert(old(reports.table), SummaryRow(InOrder, s))
  {
    var data := Summary(weather.rows, city, now);
    if data.Err? {
      return Err(data.error);
    }
    var s := data.value;
    reports.AddSummary(s.city, s.date, s.minTemp, s.maxTemp, s.avgTemp, s.dominantWeather);
    return Ok(sendSummary(s));
  }

  /**
   * The row summary() stores is keyed by (city, today), holds min_temp <=
   * avg_temp <= max_temp, and brackets every reading of the city today.
   */
  lemma SummaryRowOrdered(rows: seq<Reading>, table: map<ReportDb.Key, ReportDb.Report>, city: string, now: int)
    requires Summary(rows, city, now).Ok?
    ensures var t := ReportDb.Upsert(table, SummaryRow(InOrder, Summary(rows, city, now).value));
      && (city, DateOf(now)) in t
      && t[(city, DateOf(now))].minTemp <= t[(city, DateOf(now))].avgTemp <= t[(city, DateOf(now))].maxTemp
      && forall r :: r in rows && InGroup(r, city, DateOf(now)) ==>
           t[(city, DateOf(now))].minTemp <= r.temperature <= t[(city, DateOf(now))].maxTemp
  {
    var day := DateOf(now);
    var s := GroupSummary(rows, city, day);
    assert Summary(rows, city, now).value == s;
    GroupSummaryCorrect(rows, city, day);
    var row := SummaryRow(InOrder, s);
    assert row.minTemp == s.minTemp && row.maxTemp == s.maxTemp && row.avgTemp == s.avgTemp;
    assert ReportDb.Upsert(table, row)[(city, day)] == row;
  }
}
