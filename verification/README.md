# Weather tables: a Dafny model

The application polls a weather service for six Indian cities and stores every
reading in a `weather` table. It reports heat warnings and daily summaries,
keeps the summaries in a `reports` table keyed by (City, DateTime), and mails
them to the subscribers in a `users` table keyed by Mail. Every operation is
SQL over SQLite. This project models the tables and the operations on them,
and proves what each operation does:

- `results.dfy` (module `Results`) holds the `Result` type for the source's exceptions.
- `aggregate.dfy` (module `Aggregate`) holds the SQL aggregates `MAX`, `MIN`, `AVG` and
  the modal value of `GROUP BY Weather ORDER BY COUNT(*) DESC LIMIT 1`.
- `weather_db.dfy` (module `WeatherDb`) models `DataManager/weather_db.py`:
  - the weather table is the class `WeatherStore`, whose `rows: seq<Reading>` is
    changed by `AddWeather` and `DropDataBefore24Hours`;
  - the `allSummary` loop is `AllSummary`;
  - the read-only queries `shouldUpdateWeather`, `Warning` and `Summary` are functions.
- `report_db.dfy` (module `ReportDb`) models `DataManager/report_db.py`. The reports
  table is the class `ReportStore`, whose `table: map<Key, Report>` is changed by
  `AddSummary` (INSERT OR REPLACE, the function `Upsert`).
- `users_db.dfy` (module `UsersDb`) models `DataManager/Users_db.py`. The users table
  is the class `UserStore`, whose `users: map<Mail, Subscriber>` is changed by
  `Subscribe` and `Unsubscribe` (the functions `Subscribed` and `Unsubscribed`).
- `data_gen.dfy` (module `DataGen`) models `DataManager/DataGen.py`:
  - the gated ingestion loop `callCities` and `getWeather`;
  - the unit conversions;
  - `warn` and `summary`.

Conventions:

- A DateTime is an integer number of seconds on one clock, and its date is
  `DateTime / 86400`.
- Temperatures are exact reals.
- Each operation that reads the clock takes it as a parameter `now`.
- The weather service (`fetch`) and the message generator (`sendWarning`,
  `sendSummary`) are function parameters.
- Rows with the same DateTime are ordered newest-inserted first. Among statuses
  with the same count, the first one in storage order is dominant.

## Model

| member | source | states |
|---|---|---|
| WeatherDb.WeatherStore.AddWeather | DataManager/weather_db.py:70-73 | exactly one row is appended; it holds the nine given columns in table order, and every earlier row is unchanged |
| WeatherDb.DateOf | DataManager/weather_db.py:225 | Date(DateTime) is the day whose 86400-second span contains the timestamp |
| WeatherDb.LatestTime | DataManager/weather_db.py:132-133 | the newest DateTime is the DateTime of some row and no row is newer |
| WeatherDb.ShouldUpdateWeather | DataManager/weather_db.py:132-147 | an empty table is due; otherwise it is due iff every reading, the newest included, is at least 360 s old, so exactly 360 s counts as due |
| WeatherDb.FreshAfterReading | DataManager/weather_db.py:143-147 | one reading younger than 360 s keeps the gate closed |
| WeatherDb.Retained | DataManager/weather_db.py:163 | the sweep never adds rows |
| WeatherDb.RetainedExactly | DataManager/weather_db.py:163 | the sweep keeps a row iff its DateTime is not strictly before the cutoff, each kept row with all its copies; a row exactly at the cutoff survives |
| WeatherDb.RetainedIdempotent | DataManager/weather_db.py:163 | a second sweep with the same cutoff deletes nothing more |
| WeatherDb.RetainedAllKept | DataManager/weather_db.py:163 | a sweep with no row before the cutoff leaves the table as it is |
| WeatherDb.WeatherStore.DropDataBefore24Hours | DataManager/weather_db.py:162-163 | the loop leaves exactly the rows the sweep keeps at cutoff now - 24 h, in stored order |
| WeatherDb.NewestFor | DataManager/weather_db.py:193 | the row picked by ORDER BY DateTime DESC belongs to the city and is not the excluded row |
| WeatherDb.NewestForSpec | DataManager/weather_db.py:193 | there is no newest row iff the city has no other row; otherwise the newest row comes first in ORDER BY DateTime DESC among the city's rows |
| WeatherDb.Warning | DataManager/weather_db.py:197-202 | a warning needs two distinct rows of the city |
| WeatherDb.WarningIff | DataManager/weather_db.py:193-202 | the warning holds iff the city's two newest rows both have Temperature strictly above 35 |
| WeatherDb.LatestTwoUnique | DataManager/weather_db.py:193 | LIMIT 2 under ORDER BY DateTime DESC selects one pair of rows |
| WeatherDb.WarningNeedsTwoReadings | DataManager/weather_db.py:198-199 | a city with fewer than two rows gets no warning, whatever its temperatures |
| WeatherDb.WarningIgnoresOtherCities | DataManager/weather_db.py:193 | appending a row of another city does not change the city's warning |
| WeatherDb.NewestForAppendOther | DataManager/weather_db.py:193 | appending a row of another city does not change the city's newest row |
| WeatherDb.NewestForPrefix | DataManager/weather_db.py:193 | the newest row among the first n rows depends only on those rows |
| WeatherDb.CoolReadingClearsWarning | DataManager/weather_db.py:202 | a newest reading at or below 35 clears the warning, however hot the one before it |
| Aggregate.Max | DataManager/weather_db.py:226 | MAX is attained by an element of the group and bounds every element |
| Aggregate.Min | DataManager/weather_db.py:227 | MIN is attained by an element of the group and is bounded by every element |
| Aggregate.SumBounds | DataManager/weather_db.py:228 | elements in [lo, hi] give a sum in [n lo, n hi] |
| Aggregate.Mean | DataManager/weather_db.py:228 | AVG times the group size is the group's sum |
| Aggregate.MeanBetween | DataManager/weather_db.py:228 | AVG of a non-empty group lies between its MIN and MAX |
| Aggregate.ModeAmong | DataManager/weather_db.py:243-248 | scanning a prefix yields one of its statuses, whose count is at least that of every status in the prefix |
| Aggregate.Mode | DataManager/weather_db.py:243-248 | the modal status occurs in the group and no status occurs more often |
| WeatherDb.DominantWeather | DataManager/weather_db.py:250-253 | "Unknown" exactly for a group with no status; otherwise a status of the group with maximal count |
| WeatherDb.GroupRows | DataManager/weather_db.py:245 | the group holds exactly the rows of that city dated that day |
| WeatherDb.GroupRowsExactly | DataManager/weather_db.py:245 | the group keeps every copy of each row of that city and day and no other row, so AVG and COUNT(*) see the stored multiplicities |
| WeatherDb.GroupSummary | DataManager/weather_db.py:222-231 | a group's summary carries the group's City and Date |
| WeatherDb.GroupSummaryCorrect | DataManager/weather_db.py:222-253 | for a group with readings: MAX and MIN are attained by and bound every reading, min <= avg <= max, and the dominant weather is a status of the group with maximal count, so "Unknown" is unreachable |
| WeatherDb.GroupKeys | DataManager/weather_db.py:222-231 | there are at most as many groups as readings |
| WeatherDb.GroupTemperaturesCorrect | DataManager/weather_db.py:226-228 | MAX and MIN bound and are attained by the group's temperatures, and AVG lies between them |
| WeatherDb.GroupStatusCorrect | DataManager/weather_db.py:242-253 | the dominant status is a status of the group and has maximal count |
| WeatherDb.Summary | DataManager/weather_db.py:286-317 | fails iff the city has no reading dated today; otherwise the summary has that City, today's date, min <= avg <= max, and is the group's summary |
| WeatherDb.GroupKeysSpec | DataManager/weather_db.py:222-231 | GROUP BY City, Date lists every reading's group, only groups with readings, and each group once |
| WeatherDb.GroupRowKey | DataManager/weather_db.py:256-258 | a group's report row is stored under that group's (City, Date) |
| WeatherDb.SummaryRow | DataManager/weather_db.py:256-263 | the row is keyed by the summary's City and Date; positional order puts MAX in min_temp and MIN in max_temp, keyword order puts each in its own column |
| WeatherDb.RollupOverSpec | DataManager/weather_db.py:234-263 | RollupOver, the table after the loop's upserts of the listed groups: each listed group the listed groups, holds its own row, every other key keeps its row, no other key appears, and one row per key is kept |
| WeatherDb.RollupStep | DataManager/weather_db.py:234 | one more pass of the loop extends the upserted prefix of groups by one |
| WeatherDb.RollupSpec | DataManager/weather_db.py:222-263 | Rollup, the table allSummary leaves: every (City, Date) group of the readings gets exactly its own row, keys without readings keep their rows, and one row per key is kept |
| WeatherDb.RollupIdempotent | DataManager/weather_db.py:222-263 | re-running allSummary on unchanged readings leaves the reports table unchanged |
| WeatherDb.RolledUpSwapsExtremes | DataManager/weather_db.py:256-263 | as written, a group's min_temp column holds its maximum and its max_temp column its minimum, so two different temperatures give min_temp > max_temp |
| WeatherDb.IntendedRollupOrdered | DataManager/weather_db.py:256-263 | with the columns in order, every rolled-up row has min_temp <= avg_temp <= max_temp and brackets each reading of its group |
| WeatherDb.WeatherStore.AllSummary | DataManager/weather_db.py:234-263 | the loop leaves the reports table equal to one upsert per group, in group order, with the positional column order |
| WeatherDb.WeatherStore.SummarizeGroup | DataManager/weather_db.py:256-263 | one pass upserts the group's row with max_temp in the min_temp parameter and min_temp in the max_temp parameter |
| ReportDb.UpsertSpec | DataManager/report_db.py:69-72 | after INSERT OR REPLACE the key holds exactly the given row, no other key changes or appears, the row count grows by one only for a new key, and one row per key is kept |
| ReportDb.Upsert | DataManager/report_db.py:69-72 | INSERT OR REPLACE adds at most the row's key and stores the row under it |
| ReportDb.UpsertIdempotent | DataManager/report_db.py:69-72 | the same upsert twice equals it once |
| ReportDb.UpsertReplaces | DataManager/report_db.py:42-44 | a later upsert on the same key replaces the earlier row instead of merging with it |
| ReportDb.KeyedRowsCount | DataManager/report_db.py:30 | with one row per key, the table has as many distinct rows as keys |
| ReportDb.ReportStore.AddSummary | DataManager/report_db.py:65-75 | the table becomes the upsert of the given row, and one row per (City, DateTime) is kept |
| ReportDb.ReportStore.GetSummary | DataManager/report_db.py:95-104 | the read returns every stored row, each found under its own key, one per key, and changes nothing |
| UsersDb.UsersByCity | DataManager/Users_db.py:111-115 | the listing holds exactly the (UserName, Mail) pairs of the rows whose City is the city |
| UsersDb.Subscribed | DataManager/Users_db.py:48-57 | the mail has a row after subscribe, with the new City and the stored UserName if the mail was known, else the given one; no other key appears |
| UsersDb.Unsubscribed | DataManager/Users_db.py:75-80 | exactly the mail's key disappears |
| UsersDb.SubscribeSpec | DataManager/Users_db.py:48-57 | the mail is listed under the new city; a known mail keeps its UserName and the row count, an unknown mail adds one row; all other rows are unchanged and Mail stays unique |
| UsersDb.UnsubscribeSpec | DataManager/Users_db.py:75-80 | the mail's row is gone, the count drops by one only if it existed, and all other rows are unchanged |
| UsersDb.UnsubscribeAbsentNoop | DataManager/Users_db.py:78-80 | unsubscribing an unknown mail changes nothing |
| UsersDb.SubscribeIdempotent | DataManager/Users_db.py:48-57 | subscribing the same mail to the same city twice equals once |
| UsersDb.UnsubscribeUndoesNewSubscribe | DataManager/Users_db.py:57 | unsubscribing a newly subscribed mail restores the table |
| UsersDb.SubscribeThenListed | DataManager/Users_db.py:54 | after subscribe(U, M, C) the listing for C contains M, under its stored UserName |
| UsersDb.SubscribeMovesCity | DataManager/Users_db.py:54 | after subscribing M to C, no other city's listing contains M |
| UsersDb.UnsubscribeThenUnlisted | DataManager/Users_db.py:80 | after unsubscribe(M), no city's listing contains M |
| UsersDb.OtherMailsUnaffected | DataManager/Users_db.py:49-80 | subscribe and unsubscribe of one mail leave every other mail's listing unchanged |
| UsersDb.UserStore.Subscribe | DataManager/Users_db.py:48-57 | the table becomes the subscribe result: City updated for a known mail, a new row otherwise |
| UsersDb.UserStore.Unsubscribe | DataManager/Users_db.py:74-80 | the table becomes the unsubscribe result |
| UsersDb.UserStore.GetUsersByCity | DataManager/Users_db.py:111-115 | a read that changes nothing and returns exactly the (UserName, Mail) pairs of the rows with that City |
| DataGen.GetWeather | DataManager/DataGen.py:53-76 | a successful fetch appends one row built from the observation and stamped now, and returns it; a failing fetch stores nothing and propagates |
| DataGen.ReadingOf | DataManager/DataGen.py:56-66 | the record is for the city, stamped now, and every observation field can be read back from its columns |
| DataGen.Fetched | DataManager/DataGen.py:106-107 | at most one record per city is fetched |
| DataGen.FetchedSpec | DataManager/DataGen.py:106-107 | the fetched records are one per city, in city order, for a prefix of the cities that stops exactly at the first failing fetch |
| DataGen.FetchedStep | DataManager/DataGen.py:106-107 | a successful fetch extends the fetched records by that city's record |
| DataGen.FetchedStops | DataManager/DataGen.py:106-107 | after a failing fetch the later cities add nothing |
| DataGen.CallCities | DataManager/DataGen.py:99-113 | not due: returns an empty list and changes nothing; all fetches succeed: returns the six records in order, with the store swept once after all appends; a fetch fails: earlier records stay stored, no sweep, the failure propagates |
| DataGen.AllFetched | DataManager/DataGen.py:99-107 | when every fetch succeeds there is one record per city, in the order of the city list, each stamped now |
| DataGen.NotDueAfterIngest | DataManager/DataGen.py:103-109 | right after an ingest and sweep the freshness gate is closed |
| DataGen.C2F | DataManager/DataGen.py:132 | C2F is undone by (F - 32) * 5/9 |
| DataGen.C2K | DataManager/DataGen.py:152 | C2K is undone by subtracting 273.15 |
| DataGen.ConversionsAt32 | Tests/DataGenTests.py:54-62 | C2F(32) = 89.6 and C2K(32) = 305.15 |
| DataGen.C2FInvertible | DataManager/DataGen.py:132 | C2F is undone by (F - 32) * 5/9 and is strictly increasing |
| DataGen.C2KInvertible | DataManager/DataGen.py:152 | C2K is undone by subtracting 273.15, and is non-negative exactly from -273.15 C up |
| DataGen.ConversionsAgree | DataManager/DataGen.py:132 | C2F equals the Fahrenheit value computed from C2K |
| DataGen.Warn | DataManager/DataGen.py:172-176 | without a warning the answer is "No warning"; any other answer is the generated warning and means Warning(city) holds |
| DataGen.WarnIff | DataManager/DataGen.py:172-176 | warn answers "No warning" exactly when the city's two newest readings are not both above 35, and otherwise the generated warning |
| DataGen.WarnIgnoresOtherCities | DataManager/DataGen.py:172-176 | a reading of another city does not change what warn answers |
| DataGen.Summarize | DataManager/DataGen.py:196-201 | with a reading today, upserts today's summary with every statistic in its own column and returns the generated message; otherwise stores nothing and fails |
| DataGen.SummaryRowOrdered | DataManager/DataGen.py:198-199 | the row summary stores is keyed (city, today), has min_temp <= avg_temp <= max_temp and brackets every reading of the city today |

## Left out

- SQLite and pandas plumbing is not modelled: connections, commits, `initialize_db`, DataFrame construction and `print`. The three tables are a sequence and two maps.
- `getWeather` in `weather_db.py` is a SELECT * into a DataFrame; it is the `rows` field itself.
- Text timestamps are not modelled. The source stores local `datetime.now()` text and compares it with SQLite's UTC `datetime('now')` and `Date('now')`; here there is one integer clock.
- `CallCities` stamps all six readings with the one `now` it is given. The source reads the clock once per city.
- DataGen.CallCities returns `Err` where the source lets the exception escape; the readings stored before the failure are kept, as in the source.
- Floating point is not modelled: `AVG` and the conversions are exact over reals.
- SQLite tie-breaks are fixed here rather than left open. Among rows with equal DateTime, `Warning` takes the later-inserted row first. Among statuses with equal counts, the dominant weather is the first one stored.
- The LLM calls (`send_warning`, `send_summary`) are function parameters. The source's one-argument call to the two-parameter `send_warning` is not modelled.
- Mail sending is not modelled.
- The weather API call and pyowm field extraction are not modelled. `fetch` returns an observation record or fails.
- Concurrency is not modelled: callers racing on `callCities` are out of scope.
- UsersDb.UsersByCity: the listing is a set of (UserName, Mail) pairs; the source's list order is not modelled.
- ReportDb.ReportStore.GetSummary: the rows are returned as a set; the source's row order is not modelled.
- WeatherDb.GroupSummary: for a group without readings it returns 0.0 temperatures and "Unknown". The source never asks for such a group.
- WeatherDb.Summary: the source raises a `TypeError` when the city has no reading today; here that is the error result `NoReadingToday`.
- DataGen.WarnIff assumes the generated warning is never the text "No warning".

## Findings

| source | as written | input that shows it | evidently intended | confidence | as-written member | corrected member |
|---|---|---|---|---|---|---|
| DataManager/weather_db.py:256-263 | `allSummary` passes `max_temp, min_temp` positionally to `addSummary(city, datetime, min_temp, max_temp, ...)` (DataManager/report_db.py:38), so the group maximum is stored as min_temp and the minimum as max_temp | two Delhi readings on the same day at 20.0 and 30.0: the stored row has min_temp 30.0 and max_temp 20.0 | each statistic in its own column, so min_temp <= avg_temp <= max_temp, as `summary` in DataManager/DataGen.py:198 does with keywords | high; not executed | WeatherDb.RolledUpSwapsExtremes | WeatherDb.IntendedRollupOrdered |
