/**
 * The weather table and the queries over it: appending a reading, the
 * six-minute freshness gate, the 24-hour retention sweep, the two-reading
 * heat warning, and the daily summaries (one city today, or every city and
 * day at once, upserted into the reports table).
 *
 * DateTime is an integer number of seconds on one clock; the calendar date of
 * a reading is DateTime / 86400.
 */
module WeatherDb {
  import opened Results
  import opened Aggregate
  import ReportDb

  /** Seconds in a day: the length of a date and of the retention window. */
  const DaySeconds: int := 86400
  /** Readings are due again once the newest one is this many seconds old. */
  const FreshnessSeconds: int := 360
  /** A temperature strictly above this is hot. */
  const HeatThreshold: real := 35.0
  /** The dominant weather recorded when a group has no status at all. */
  const UnknownWeather: string := "Unknown"

  /** One row of the weather table, columns in table order. */
  datatype Reading = Reading(
    city: string,
    dateTime: int,
    temperature: real,
    temperatureMax: real,
    temperatureMin: real,
    weather: string,
    feelsLike: real,
    windSpeed: real,
    humidity: real)

  /** Date(DateTime): the day number of a timestamp. */
  function DateOf(t: int): (day: int)
    ensures DaySeconds * day <= t < DaySeconds * (day + 1)
  {
    t / DaySeconds
  }

  // ---------------------------------------------------------------------
  // Freshness gate
  // ---------------------------------------------------------------------

  /** SELECT DateTime ... ORDER BY DateTime DESC LIMIT 1: the newest timestamp stored. */
  function LatestTime(rows: seq<Reading>): (t: int)
    requires |rows| > 0
    ensures exists i :: 0 <= i < |rows| && rows[i].dateTime == t
    ensures forall i :: 0 <= i < |rows| ==> rows[i].dateTime <= t
  {
    if |rows| == 1 then rows[0].dateTime
    else
      var rest := LatestTime(rows[1..]);
      assert forall i :: 1 <= i < |rows| ==> rows[i] == rows[1..][i - 1];
      if rows[0].dateTime >= rest then rows[0].dateTime else rest
  }

  /**
   * shouldUpdateWeather: due when the table is empty or the newest reading is
   * at least 360 seconds old, that is, when every reading is.
   */
  function ShouldUpdateWeather(rows: seq<Reading>, now: int): (due: bool)
    ensures |rows| == 0 ==> due
    ensures due <==> forall i :: 0 <= i < |rows| ==> now - rows[i].dateTime >= FreshnessSeconds
  {
    |rows| == 0 || now - LatestTime(rows) >= FreshnessSeconds
  }

  /** A reading stamped t keeps the gate closed until t + 360. */
  lemma FreshAfterReading(rows: seq<Reading>, i: int, now: int)
    requires 0 <= i < |rows|
    requires now < rows[i].dateTime + FreshnessSeconds
    ensures !ShouldUpdateWeather(rows, now)
  {
  }

  // ---------------------------------------------------------------------
  // Retention sweep
  // ---------------------------------------------------------------------

  /** The rows a DELETE ... WHERE DateTime < cutoff leaves, in their stored order. */
  function Retained(rows: seq<Reading>, cutoff: int): (kept: seq<Reading>)
    ensures |kept| <= |rows|
  {
    if |rows| == 0 then []
    else
      var last := rows[|rows| - 1];
      Retained(rows[..|rows| - 1], cutoff) + if last.dateTime >= cutoff then [last] else []
  }

  /**
   * The sweep deletes exactly the rows strictly older than the cutoff: each
   * row at or after it survives as many times as it was stored, each row
   * before it is gone. A row exactly at the cutoff survives.
   */
  lemma {:induction false} RetainedExactly(rows: seq<Reading>, cutoff: int)
    ensures forall r :: r in Retained(rows, cutoff) <==> r in rows && r.dateTime >= cutoff
    ensures forall r :: multiset(Retained(rows, cutoff))[r] == if r.dateTime >= cutoff then multiset(rows)[r] else 0
  {
    if |rows| > 0 {
      var init, last := rows[..|rows| - 1], rows[|rows| - 1];
      assert rows == init + [last];
      RetainedExactly(init, cutoff);
    }
  }

  /** Sweeping twice with the same cutoff removes nothing more. */
  lemma RetainedIdempotent(rows: seq<Reading>, cutoff: int)
    ensures Retained(Retained(rows, cutoff), cutoff) == Retained(rows, cutoff)
  {
    RetainedExactly(rows, cutoff);
    RetainedAllKept(Retained(rows, cutoff), cutoff);
  }

  /** A sweep removes nothing when no row is older than the cutoff. */
  lemma {:induction false} RetainedAllKept(rows: seq<Reading>, cutoff: int)
    requires forall r :: r in rows ==> r.dateTime >= cutoff
    ensures Retained(rows, cutoff) == rows
  {
    if |rows| > 0 {
      var init := rows[..|rows| - 1];
      assert rows == init + [rows[|rows| - 1]];
      assert forall r :: r in init ==> r in rows;
      assert rows[|rows| - 1] in rows;
      RetainedAllKept(init, cutoff);
    }
  }

  // ---------------------------------------------------------------------
  // Heat warning
  // ---------------------------------------------------------------------

  /**
   * Row i comes before row j in ORDER BY DateTime DESC. Rows with the same
   * DateTime are ordered newest-inserted first.
   */
  predicate Newer(rows: seq<Reading>, i: int, j: int)
    requires 0 <= i < |rows| && 0 <= j < |rows|
  {
    rows[i].dateTime > rows[j].dateTime || (rows[i].dateTime == rows[j].dateTime && i > j)
  }

  /**
   * The newest row for city among rows[..n], other than row skip; -1 when
   * there is none.
   */
  function NewestFor(rows: seq<Reading>, city: string, skip: int, n: nat): (k: int)
    requires n <= |rows|
    ensures -1 <= k < n
    ensures k >= 0 ==> k != skip && rows[k].city == city
  {
    if n == 0 then -1
    else
      var k := NewestFor(rows, city, skip, n - 1);
      if n - 1 != skip && rows[n - 1].city == city && (k == -1 || rows[n - 1].dateTime >= rows[k].dateTime)
      then n - 1
      else k
  }

  /**
   * The newest row is -1 exactly when no row other than skip belongs to city,
   * and otherwise comes before every other such row in ORDER BY DateTime DESC.
   */
  lemma {:induction false} NewestForSpec(rows: seq<Reading>, city: string, skip: int, n: nat)
    requires n <= |rows|
    ensures NewestFor(rows, city, skip, n) == -1 <==> forall i :: 0 <= i < n && i != skip ==> rows[i].city != city
    ensures var k := NewestFor(rows, city, skip, n);
      k >= 0 ==> forall i :: 0 <= i < n && i != skip && i != k && rows[i].city == city ==> Newer(rows, k, i)
  {
    if n > 0 {
      NewestForSpec(rows, city, skip, n - 1);
    }
  }

  /**
   * Warning(city): the two newest readings for city (ORDER BY DateTime DESC
   * LIMIT 2) exist and are both strictly above 35.
   */
  function Warning(rows: seq<Reading>, city: string): (hot: bool)
    ensures hot ==> exists i, j :: 0 <= i < |rows| && 0 <= j < |rows| && i != j && rows[i].city == city && rows[j].city == city
  {
    var first := NewestFor(rows, city, -1, |rows|);
    NewestForSpec(rows, city, -1, |rows|);
    if first == -1 then false
    else
      var second := NewestFor(rows, city, first, |rows|);
      if second == -1 then false
      else rows[first].temperature > HeatThreshold && rows[second].temperature > HeatThreshold
  }

  /** Rows i and j are, in this order, the two newest readings for city. */
  predicate LatestTwo(rows: seq<Reading>, city: string, i: int, j: int)
  {
    && 0 <= i < |rows| && 0 <= j < |rows| && i != j
    && rows[i].city == city && rows[j].city == city
    && Newer(rows, i, j)
    && forall k :: 0 <= k < |rows| && k != i && k != j && rows[k].city == city ==> Newer(rows, j, k)
  }

  /** The warning holds exactly when the two newest readings of city are both above 35. */
  lemma WarningIff(rows: seq<Reading>, city: string)
    ensures Warning(rows, city) <==>
      exists i, j :: LatestTwo(rows, city, i, j) && rows[i].temperature > HeatThreshold && rows[j].temperature > HeatThreshold
  {
    var first := NewestFor(rows, city, -1, |rows|);
    NewestForSpec(rows, city, -1, |rows|);
    if first != -1 {
      var second := NewestFor(rows, city, first, |rows|);
      NewestForSpec(rows, city, first, |rows|);
      if second != -1 {
        assert LatestTwo(rows, city, first, second);
        forall i, j | LatestTwo(rows, city, i, j) ensures i == first && j == second {
          LatestTwoUnique(rows, city, i, j, first, second);
        }
      }
    }
  }

  /** Only one pair of rows can be the two newest for a city. */
  lemma LatestTwoUnique(rows: seq<Reading>, city: string, i: int, j: int, i': int, j': int)
    requires LatestTwo(rows, city, i, j) && LatestTwo(rows, city, i', j')
    ensures i == i' && j == j'
  {
  }

  /** With fewer than two readings for city there is no warning, whatever the temperatures. */
  lemma WarningNeedsTwoReadings(rows: seq<Reading>, city: string)
    requires forall i, j :: 0 <= i < |rows| && 0 <= j < |rows| && rows[i].city == city && rows[j].city == city ==> i == j
    ensures !Warning(rows, city)
  {
  }

  /** Readings of other cities do not affect a city's warning. */
  lemma WarningIgnoresOtherCities(rows: seq<Reading>, r: Reading, city: string)
    requires r.city != city
    ensures Warning(rows + [r], city) == Warning(rows, city)
  {
    NewestForAppendOther(rows, r, city, -1);
    var first := NewestFor(rows, city, -1, |rows|);
    if first != -1 {
      NewestForAppendOther(rows, r, city, first);
    }
  }

  /** Appending a reading of another city does not change the newest reading for city. */
  lemma NewestForAppendOther(rows: seq<Reading>, r: Reading, city: string, skip: int)
    requires r.city != city
    ensures NewestFor(rows + [r], city, skip, |rows| + 1) == NewestFor(rows, city, skip, |rows|)
  {
    var rows' := rows + [r];
    assert rows'[|rows|] == r;
    NewestForPrefix(rows, rows', city, skip, |rows|);
  }

  /** NewestFor over the first n rows depends only on those rows. */
  lemma {:induction false} NewestForPrefix(rows: seq<Reading>, rows': seq<Reading>, city: string, skip: int, n: nat)
    requires n <= |rows| && n <= |rows'|
    requires forall i :: 0 <= i < n ==> rows[i] == rows'[i]
    ensures NewestFor(rows, city, skip, n) == NewestFor(rows', city, skip, n)
  {
    if n > 0 {
      NewestForPrefix(rows, rows', city, skip, n - 1);
    }
  }

  /** A newest reading at or below 35 clears the warning, however hot the one before it was. */
  lemma CoolReadingClearsWarning(rows: seq<Reading>, r: Reading)
    requires r.temperature <= HeatThreshold
    requires forall i :: 0 <= i < |rows| ==> rows[i].dateTime <= r.dateTime
    ensures !Warning(rows + [r], r.city)
  {
    var rows' := rows + [r];
    var first := NewestFor(rows', r.city, -1, |rows'|);
    NewestForSpec(rows', r.city, -1, |rows'|);
    assert first == |rows|;
  }

  // ---------------------------------------------------------------------
  // Daily summaries
  // ---------------------------------------------------------------------

  /** Reading r belongs to the (city, day) group. */
  predicate InGroup(r: Reading, city: string, day: int)
  {
    r.city == city && DateOf(r.dateTime) == day
  }

  /** WHERE City = city AND Date(DateTime) = day, in stored order. */
  function GroupRows(rows: seq<Reading>, city: string, day: int): (g: seq<Reading>)
    ensures forall r :: r in g <==> r in rows && InGroup(r, city, day)
    ensures |g| <= |rows|
  {
    if |rows| == 0 then []
    else
      var rest := GroupRows(rows[1..], city, day);
      assert forall r :: r in rows <==> r == rows[0] || r in rows[1..];
      if InGroup(rows[0], city, day) then [rows[0]] + rest else rest
  }

  /**
   * The group keeps every copy of each matching row, as WHERE does, so the
   * counts behind AVG and COUNT(*) are those of the stored rows.
   */
  lemma {:induction false} GroupRowsExactly(rows: seq<Reading>, city: string, day: int)
    ensures forall r :: multiset(GroupRows(rows, city, day))[r] == if InGroup(r, city, day) then multiset(rows)[r] else 0
  {
    if |rows| > 0 {
      assert rows == [rows[0]] + rows[1..];
      GroupRowsExactly(rows[1..], city, day);
    }
  }

  function Temperatures(g: seq<Reading>): seq<real>
  {
    seq(|g|, i requires 0 <= i < |g| => g[i].temperature)
  }

  function Statuses(g: seq<Reading>): seq<string>
  {
    seq(|g|, i requires 0 <= i < |g| => g[i].weather)
  }

  /** How many readings of the (city, day) group have status w. */
  function StatusCount(rows: seq<Reading>, city: string, day: int, w: string): nat
  {
    multiset(Statuses(GroupRows(rows, city, day)))[w]
  }

  /** One summary as the SQL computes it: MAX, MIN, AVG of Temperature and the modal Weather. */
  datatype DailySummary = DailySummary(
    city: string,
    date: int,
    maxTemp: real,
    minTemp: real,
    avgTemp: real,
    dominantWeather: string)

  /** mode_status[0] if mode_status else "Unknown". */
  function DominantWeather(st: seq<string>): (w: string)
    ensures |st| > 0 ==> w in st && forall x :: x in st ==> multiset(st)[x] <= multiset(st)[w]
    ensures |st| == 0 ==> w == UnknownWeather
  {
    if |st| == 0 then UnknownWeather else Mode(st)
  }

  /**
   * The summary of the (city, day) group, computed as the SQL does. Callers
   * only ask for groups that have readings; for an empty group, where SQL
   * yields no row, the temperatures are 0.0 and the status "Unknown".
   */
  function GroupSummary(rows: seq<Reading>, city: string, day: int): (s: DailySummary)
    ensures s.city == city && s.date == day
  {
    var g := GroupRows(rows, city, day);
    var t := Temperatures(g);
    if |g| == 0 then DailySummary(city, day, 0.0, 0.0, 0.0, UnknownWeather)
    else DailySummary(city, day, Max(t), Min(t), Mean(t), DominantWeather(Statuses(g)))
  }

  /**
   * What a group summary means: its extreme temperatures are attained by and
   * bound every reading of the group, the average lies between them, and the
   * dominant weather is a status of the group with the largest count (so the
   * "Unknown" default is never taken for a non-empty group).
   */
  lemma GroupSummaryCorrect(rows: seq<Reading>, city: string, day: int)
    requires exists r :: r in rows && InGroup(r, city, day)
    ensures var s := GroupSummary(rows, city, day);
      && (forall r :: r in rows && InGroup(r, city, day) ==> s.minTemp <= r.temperature <= s.maxTemp)
      && (exists r :: r in rows && InGroup(r, city, day) && r.temperature == s.maxTemp)
      && (exists r :: r in rows && InGroup(r, city, day) && r.temperature == s.minTemp)
      && s.minTemp <= s.avgTemp <= s.maxTemp
      && (exists r :: r in rows && InGroup(r, city, day) && r.weather == s.dominantWeather)
      && (forall r :: r in rows && InGroup(r, city, day) ==>
            StatusCount(rows, city, day, r.weather) <= StatusCount(rows, city, day, s.dominantWeather))
  {
    var g := GroupRows(rows, city, day);
    var r0 :| r0 in rows && InGroup(r0, city, day);
    assert r0 in g;
    GroupTemperaturesCorrect(g);
    GroupStatusCorrect(g);
  }

  /** For a non-empty group: MAX and MIN bound and are attained by its readings, AVG lies between them. */
  lemma GroupTemperaturesCorrect(g: seq<Reading>)
    requires |g| > 0
    ensures forall r :: r in g ==> Min(Temperatures(g)) <= r.temperature <= Max(Temperatures(g))
    ensures exists r :: r in g && r.temperature == Max(Temperatures(g))
    ensures exists r :: r in g && r.temperature == Min(Temperatures(g))
    ensures Min(Temperatures(g)) <= Mean(Temperatures(g)) <= Max(Temperatures(g))
  {
    var t := Temperatures(g);
    MeanBetween(t);
    forall r | r in g ensures r.temperature in t {
      var i :| 0 <= i < |g| && g[i] == r;
      assert t[i] == r.temperature;
    }
    var i :| 0 <= i < |t| && t[i] == Max(t);
    assert g[i] in g;
    var j :| 0 <= j < |t| && t[j] == Min(t);
    assert g[j] in g;
  }

  /** For a non-empty group: the dominant status is one of its statuses, with the largest count. */
  lemma GroupStatusCorrect(g: seq<Reading>)
    requires |g| > 0
    ensures exists r :: r in g && r.weather == DominantWeather(Statuses(g))
    ensures forall r :: r in g ==> multiset(Statuses(g))[r.weather] <= multiset(Statuses(g))[DominantWeather(Statuses(g))]
  {
    var st := Statuses(g);
    forall r | r in g ensures r.weather in st {
      var i :| 0 <= i < |g| && g[i] == r;
      assert st[i] == r.weather;
    }
    var i :| 0 <= i < |st| && st[i] == DominantWeather(st);
    assert g[i] in g;
  }

  datatype SummaryError = NoReadingToday(city: string)

  /**
   * Summary(city): the summary of city's readings dated today. With no such
   * reading the source indexes the missing SQL row and raises; that is the
   * error result here.
   */
  function Summary(rows: seq<Reading>, city: string, now: int): (res: Result<DailySummary, SummaryError>)
    ensures res.Err? <==> forall r :: r in rows ==> !InGroup(r, city, DateOf(now))
    ensures res.Err? ==> res.error == NoReadingToday(city)
    ensures res.Ok? ==> res.value.city == city && res.value.date == DateOf(now)
    ensures res.Ok? ==> res.value.minTemp <= res.value.avgTemp <= res.value.maxTemp
    ensures res.Ok? ==> res.value == GroupSummary(rows, city, DateOf(now))
  {
    if exists r :: r in rows && InGroup(r, city, DateOf(now))
    then
      GroupSummaryCorrect(rows, city, DateOf(now));
      Ok(GroupSummary(rows, city, DateOf(now)))
    else Err(NoReadingToday(city))
  }

  /** The (City, Date(DateTime)) group a reading falls in. */
  function GroupOf(r: Reading): ReportDb.Key
  {
    (r.city, DateOf(r.dateTime))
  }

  /** GROUP BY City, Date(DateTime): each group key once, in order of first appearance. */
  function GroupKeys(rows: seq<Reading>): (keys: seq<ReportDb.Key>)
    ensures |keys| <= |rows|
  {
    if |rows| == 0 then []
    else
      var keys := GroupKeys(rows[..|rows| - 1]);
      var k := GroupOf(rows[|rows| - 1]);
      if k in keys then keys else keys + [k]
  }

  /** The group keys are exactly the groups of the readings, each listed once. */
  lemma {:induction false} GroupKeysSpec(rows: seq<Reading>)
    ensures forall r :: r in rows ==> GroupOf(r) in GroupKeys(rows)
    ensures forall k :: k in GroupKeys(rows) ==> exists r :: r in rows && InGroup(r, k.0, k.1)
    ensures forall i, j :: 0 <= i < j < |GroupKeys(rows)| ==> GroupKeys(rows)[i] != GroupKeys(rows)[j]
  {
    if |rows| > 0 {
      var init := rows[..|rows| - 1];
      var last := rows[|rows| - 1];
      assert rows == init + [last];
      GroupKeysSpec(init);
      var keys := GroupKeys(init);
      assert forall r :: r in init ==> r in rows;
      assert last in rows && InGroup(last, GroupOf(last).0, GroupOf(last).1);
      forall k | k in GroupKeys(rows)
        ensures exists r :: r in rows && InGroup(r, k.0, k.1)
      {
        if k in keys {
          var r :| r in init && InGroup(r, k.0, k.1);
          assert r in rows;
        } else {
          assert k == GroupOf(last);
        }
      }
      var all := GroupKeys(rows);
      if GroupOf(last) !in keys {
        assert all == keys + [GroupOf(last)];
        forall i, j | 0 <= i < j < |all| ensures all[i] != all[j] {
          if j == |keys| {
            assert all[i] == keys[i] && all[j] == GroupOf(last);
          } else {
            assert all[i] == keys[i] && all[j] == keys[j];
          }
        }
      }
    }
  }

  /**
   * Which report column each extreme goes into. allSummary passes max_temp,
   * min_temp positionally into addSummary(city, datetime, min_temp, max_temp, ...),
   * so the group maximum lands in the min_temp column and the minimum in the
   * max_temp column (Swapped); summary() in DataGen passes them by keyword
   * (InOrder).
   */
  datatype ColumnOrder = Swapped | InOrder

  /** The reports row written for a group summary. */
  function SummaryRow(order: ColumnOrder, s: DailySummary): (row: ReportDb.Report)
    ensures ReportDb.KeyOf(row) == (s.city, s.date)
    ensures row.avgTemp == s.avgTemp && row.dominantWeather == s.dominantWeather
    ensures order == InOrder ==> row.minTemp == s.minTemp && row.maxTemp == s.maxTemp
    ensures order == Swapped ==> row.minTemp == s.maxTemp && row.maxTemp == s.minTemp
  {
    match order
    case Swapped => ReportDb.Report(s.city, s.date, s.maxTemp, s.minTemp, s.avgTemp, s.dominantWeather)
    case InOrder => ReportDb.Report(s.city, s.date, s.minTemp, s.maxTemp, s.avgTemp, s.dominantWeather)
  }

  /** The row of the (k.0, k.1) group, written in the given column order. */
  function GroupRow(rows: seq<Reading>, k: ReportDb.Key, order: ColumnOrder): ReportDb.Report
  {
    SummaryRow(order, GroupSummary(rows, k.0, k.1))
  }

  /** A group's row is stored under that group's own key. */
  lemma GroupRowKey(rows: seq<Reading>, k: ReportDb.Key, order: ColumnOrder)
    ensures ReportDb.KeyOf(GroupRow(rows, k, order)) == k
  {
  }

  /** The reports table after the rows of the groups ks have been upserted, in order. */
  function RollupOver(rows: seq<Reading>, table: map<ReportDb.Key, ReportDb.Report>, ks: seq<ReportDb.Key>,
                      order: ColumnOrder): map<ReportDb.Key, ReportDb.Report>
  {
    if |ks| == 0 then table
    else ReportDb.Upsert(RollupOver(rows, table, ks[..|ks| - 1], order), GroupRow(rows, ks[|ks| - 1], order))
  }

  /**
   * Upserting the groups ks: each listed group holds its own row, every other
   * key keeps its row, no other key appears, and the one-row-per-key
   * invariant is kept.
   */
  lemma RollupOverSpec(rows: seq<Reading>, table: map<ReportDb.Key, ReportDb.Report>,
                       ks: seq<ReportDb.Key>, order: ColumnOrder)
    ensures forall k :: k in RollupOver(rows, table, ks, order) <==> k in table || k in ks
    ensures forall k :: k in ks ==> RollupOver(rows, table, ks, order)[k] == GroupRow(rows, k, order)
    ensures forall k :: k in table && k !in ks ==> RollupOver(rows, table, ks, order)[k] == table[k]
    ensures ReportDb.Keyed(table) ==> ReportDb.Keyed(RollupOver(rows, table, ks, order))
  {
    RollupOverKeys(rows, table, ks, order);
    RollupOverValues(rows, table, ks, order);
  }

  /** The upserts add exactly the keys ks to the table. */
  lemma {:induction false} RollupOverKeys(rows: seq<Reading>, table: map<ReportDb.Key, ReportDb.Report>,
                                          ks: seq<ReportDb.Key>, order: ColumnOrder)
    ensures forall k :: k in RollupOver(rows, table, ks, order) <==> k in table || k in ks
  {
    if |ks| > 0 {
      var init := ks[..|ks| - 1];
      assert ks == init + [ks[|ks| - 1]];
      RollupOverKeys(rows, table, init, order);
    }
  }

  /** After the upserts each key of ks holds its group row and every other key its old row. */
  lemma {:induction false} RollupOverValues(rows: seq<Reading>, table: map<ReportDb.Key, ReportDb.Report>,
                                            ks: seq<ReportDb.Key>, order: ColumnOrder)
    ensures forall k :: k in ks ==> k in RollupOver(rows, table, ks, order) && RollupOver(rows, table, ks, order)[k] == GroupRow(rows, k, order)
    ensures forall k :: k in table && k !in ks ==> k in RollupOver(rows, table, ks, order) && RollupOver(rows, table, ks, order)[k] == table[k]
  {
    if |ks| > 0 {
      var init := ks[..|ks| - 1];
      var k := ks[|ks| - 1];
      assert ks == init + [k];
      RollupOverValues(rows, table, init, order);
    }
  }

  /** Upserting one more group extends the rolled-up prefix by that group. */
  lemma RollupStep(rows: seq<Reading>, table: map<ReportDb.Key, ReportDb.Report>, ks: seq<ReportDb.Key>, i: nat, order: ColumnOrder)
    requires i < |ks|
    ensures ReportDb.Upsert(RollupOver(rows, table, ks[..i], order), GroupRow(rows, ks[i], order))
      == RollupOver(rows, table, ks[..i + 1], order)
  {
    assert ks[..i + 1][..i] == ks[..i];
  }

  /** The reports table after one upsert per (City, Date) group of the readings. */
  function Rollup(rows: seq<Reading>, table: map<ReportDb.Key, ReportDb.Report>, order: ColumnOrder): map<ReportDb.Key, ReportDb.Report>
  {
    RollupOver(rows, table, GroupKeys(rows), order)
  }

  /**
   * What a rollup does to the reports table: every (City, Date) group of the
   * readings gets exactly one row, its own; keys without readings keep their
   * rows; the one-row-per-key invariant is preserved.
   */
  lemma RollupSpec(rows: seq<Reading>, table: map<ReportDb.Key, ReportDb.Report>, order: ColumnOrder)
    ensures table.Keys <= Rollup(rows, table, order).Keys
    ensures forall r :: r in rows ==> GroupOf(r) in Rollup(rows, table, order)
    ensures forall k :: k in GroupKeys(rows) ==> k in Rollup(rows, table, order)
    ensures forall k :: k in Rollup(rows, table, order) ==> k in table || k in GroupKeys(rows)
    ensures forall k :: k in table && k !in GroupKeys(rows) ==> Rollup(rows, table, order)[k] == table[k]
    ensures forall k :: k in GroupKeys(rows) ==> Rollup(rows, table, order)[k] == GroupRow(rows, k, order)
    ensures ReportDb.Keyed(table) ==> ReportDb.Keyed(Rollup(rows, table, order))
  {
    GroupKeysSpec(rows);
    RollupOverSpec(rows, table, GroupKeys(rows), order);
  }

  /** Re-running the rollup over unchanged readings leaves the reports table as it is. */
  lemma RollupIdempotent(rows: seq<Reading>, table: map<ReportDb.Key, ReportDb.Report>, order: ColumnOrder)
    ensures Rollup(rows, Rollup(rows, table, order), order) == Rollup(rows, table, order)
  {
    var once := Rollup(rows, table, order);
    RollupSpec(rows, table, order);
    RollupSpec(rows, once, order);
    assert Rollup(rows, once, order).Keys == once.Keys;
  }

  /**
   * In every row allSummary writes, the min_temp column holds the group
   * maximum and the max_temp column the group minimum; a group with two
   * different temperatures therefore gets min_temp > max_temp.
   */
  lemma RolledUpSwapsExtremes(rows: seq<Reading>, table: map<ReportDb.Key, ReportDb.Report>, a: Reading, b: Reading)
    requires a in rows && b in rows && GroupOf(a) == GroupOf(b)
    requires a.temperature < b.temperature
    ensures GroupOf(a) in Rollup(rows, table, Swapped)
    ensures Rollup(rows, table, Swapped)[GroupOf(a)].minTemp >= b.temperature
    ensures Rollup(rows, table, Swapped)[GroupOf(a)].maxTemp <= a.temperature
    ensures Rollup(rows, table, Swapped)[GroupOf(a)].minTemp > Rollup(rows, table, Swapped)[GroupOf(a)].maxTemp
  {
    var k := GroupOf(a);
    RollupSpec(rows, table, Swapped);
    GroupKeysSpec(rows);
    assert InGroup(a, k.0, k.1) && InGroup(b, k.0, k.1);
    GroupSummaryCorrect(rows, k.0, k.1);
  }

  /**
   * With every statistic in its own column, each row of the rollup satisfies
   * min_temp <= avg_temp <= max_temp and brackets every reading of its group.
   */
  lemma IntendedRollupOrdered(rows: seq<Reading>, table: map<ReportDb.Key, ReportDb.Report>, r: Reading)
    requires r in rows
    ensures GroupOf(r) in Rollup(rows, table, InOrder)
    ensures Rollup(rows, table, InOrder)[GroupOf(r)].minTemp <= Rollup(rows, table, InOrder)[GroupOf(r)].avgTemp
    ensures Rollup(rows, table, InOrder)[GroupOf(r)].avgTemp <= Rollup(rows, table, InOrder)[GroupOf(r)].maxTemp
    ensures Rollup(rows, table, InOrder)[GroupOf(r)].minTemp <= r.temperature <= Rollup(rows, table, InOrder)[GroupOf(r)].maxTemp
  {
    var k := GroupOf(r);
    RollupSpec(rows, table, InOrder);
    GroupKeysSpec(rows);
    assert InGroup(r, k.0, k.1);
    GroupSummaryCorrect(rows, k.0, k.1);
  }

  // ---------------------------------------------------------------------
  // The weather table
  // ---------------------------------------------------------------------

  /** The weather table of the reading database. */
  class WeatherStore {
    var rows: seq<Reading>

    constructor ()
      ensures rows == []
    {
      rows := [];
    }

    /** addWeather: append one row holding the nine given columns; earlier rows are untouched. */
    method AddWeather(city: string, dateTime: int, temperature: real, temperatureMax: real, temperatureMin: real,
                      weather: string, feelsLike: real, windSpeed: real, humidity: real)
      modifies this
      ensures |rows| == |old(rows)| + 1 && rows[..|old(rows)|] == old(rows)
      ensures rows[|old(rows)|] == Reading(city, dateTime, temperature, temperatureMax, temperatureMin, weather, feelsLike, windSpeed, humidity)
    {
      rows := rows + [Reading(city, dateTime, temperature, temperatureMax, temperatureMin, weather, feelsLike, windSpeed, humidity)];
    }

    /** dropDataBefore24Hours: delete every row older than now - 24 hours, keep all the others. */
    method DropDataBefore24Hours(now: int)
      modifies this
      ensures rows == Retained(old(rows), now - DaySeconds)
    {
      var cutoff := now - DaySeconds;
      var kept: seq<Reading> := [];
      var i := 0;
      while i < |rows|
        invariant 0 <= i <= |rows|
        invariant kept == Retained(rows[..i], cutoff)
      {
        assert rows[..i + 1][..i] == rows[..i];
        if rows[i].dateTime >= cutoff {
          kept := kept + [rows[i]];
        }
        i := i + 1;
      }
      assert rows[..i] == rows;
      rows := kept;
    }

    /** allSummary: one upsert per (City, Date) group of the readings, in group order. */
    method AllSummary(reports: ReportDb.ReportStore)
      requires reports.Valid()
      modifies reports
      ensures reports.Valid()
      ensures reports.table == Rollup(rows, old(reports.table), Swapped)
    {
      var readings := rows;
      var keys := GroupKeys(readings);
      ghost var start := reports.table;
      var i := 0;
      while i < |keys|
        invariant 0 <= i <= |keys|
        invariant reports.Valid()
        invariant reports.table == RollupOver(readings, start, keys[..i], Swapped)
      {
        RollupStep(readings, start, keys, i, Swapped);
        SummarizeGroup(readings, keys[i], reports);
        i := i + 1;
      }
      assert keys[..i] == keys;
    }

    /**
     * One pass of allSummary's loop: summarise the group and upsert it, with
     * max_temp and min_temp passed positionally into the min_temp and
     * max_temp parameters of addSummary.
     */
    static method SummarizeGroup(readings: seq<Reading>, k: ReportDb.Key, reports: ReportDb.ReportStore)
      requires reports.Valid()
      modifies reports
      ensures reports.Valid()
      ensures reports.table == ReportDb.Upsert(old(reports.table), GroupRow(readings, k, Swapped))
    {
      var s := GroupSummary(readings, k.0, k.1);
      reports.AddSummary(s.city, s.date, s.maxTemp, s.minTemp, s.avgTemp, s.dominantWeather);
    }
  }
}
