/**
 * The reports table: one daily summary row per (City, DateTime) primary key,
 * written with INSERT OR REPLACE and read back whole.
 */
module ReportDb {

  /** The primary key (City, DateTime); DateTime is a day number here. */
  type Key = (string, int)

  /** One row of the reports table, columns in table order. */
  datatype Report = Report(
    city: string,
    dateTime: int,
    minTemp: real,
    maxTemp: real,
    avgTemp: real,
    dominantWeather: string)

  function KeyOf(r: Report): Key
  {
    (r.city, r.dateTime)
  }

  /** Every row is stored under its own primary key, so no key holds two rows. */
  ghost predicate Keyed(table: map<Key, Report>)
  {
    forall k :: k in table ==> KeyOf(table[k]) == k
  }

  /** INSERT OR REPLACE of one row into the table. */
  function Upsert(table: map<Key, Report>, row: Report): (t: map<Key, Report>)
    ensures t.Keys == table.Keys + {KeyOf(row)}
    ensures t[KeyOf(row)] == row
  {
    table[KeyOf(row) := row]
  }

  /**
   * The row is stored under its key, the key set grows by at most that key,
   * every other row stays, and the one-row-per-key invariant is kept.
   */
  lemma UpsertSpec(table: map<Key, Report>, row: Report)
    ensures KeyOf(row) in Upsert(table, row) && Upsert(table, row)[KeyOf(row)] == row
    ensures Upsert(table, row).Keys == table.Keys + {KeyOf(row)}
    ensures forall k :: k in table && k != KeyOf(row) ==> Upsert(table, row)[k] == table[k]
    ensures |Upsert(table, row)| == if KeyOf(row) in table then |table| else |table| + 1
    ensures Keyed(table) ==> Keyed(Upsert(table, row))
  {
  }

  /** Upserting the same row twice is the same as upserting it once. */
  lemma UpsertIdempotent(table: map<Key, Report>, row: Report)
    ensures Upsert(Upsert(table, row), row) == Upsert(table, row)
  {
  }

  /** A later upsert on the same key replaces the earlier row instead of merging with it. */
  lemma UpsertReplaces(table: map<Key, Report>, first: Report, second: Report)
    requires KeyOf(first) == KeyOf(second)
    ensures Upsert(Upsert(table, first), second) == Upsert(table, second)
  {
  }

  /** Distinct keys hold distinct rows, so the table has as many rows as keys. */
  lemma {:induction false} KeyedRowsCount(table: map<Key, Report>)
    requires Keyed(table)
    ensures |set k | k in table :: table[k]| == |table|
    decreases |table|
  {
    if |table| > 0 {
      var k :| k in table;
      var rest := map j | j in table && j != k :: table[j];
      assert rest.Keys == table.Keys - {k};
      KeyedRowsCount(rest);
      var all := set j | j in table :: table[j];
      var others := set j | j in rest :: rest[j];
      forall r | r in all ensures r in others + {table[k]} {
        var j :| j in table && table[j] == r;
        if j != k { assert j in rest; }
      }
      assert all == others + {table[k]};
      assert table[k] !in others;
    }
  }

  /** The reports table of the report database. */
  class ReportStore {
    var table: map<Key, Report>

    ghost predicate Valid()
      reads this
    {
      Keyed(table)
    }

    constructor ()
      ensures Valid() && table == map[]
    {
      table := map[];
    }

    /** addSummary: insert the row, or replace the row already under (city, dateTime). */
    method AddSummary(city: string, dateTime: int, minTemp: real, maxTemp: real, avgTemp: real, dominantWeather: string)
      requires Valid()
      modifies this
      ensures Valid()
      ensures table == Upsert(old(table), Report(city, dateTime, minTemp, maxTemp, avgTemp, dominantWeather))
    {
      UpsertSpec(table, Report(city, dateTime, minTemp, maxTemp, avgTemp, dominantWeather));
      table := table[(city, dateTime) := Report(city, dateTime, minTemp, maxTemp, avgTemp, dominantWeather)];
    }

    /** getSummary (SELECT * FROM reports): every stored row, each found under its own key. */
    function GetSummary(): (rows: set<Report>)
      requires Valid()
      reads this
      ensures forall k :: k in table ==> table[k] in rows
      ensures forall r :: r in rows ==> KeyOf(r) in table && table[KeyOf(r)] == r
      ensures |rows| == |table|
    {
      KeyedRowsCount(table);
      set k | k in table :: table[k]
    }
  }
}
