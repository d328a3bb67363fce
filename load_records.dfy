/**
 * The `load_records` management command of
 * temperature/management/commands/load_records.py: import CSV rows of
 * (date, temperature, uncertainty, country name) into the database,
 * creating each Country on first reference and skipping every row whose
 * (date, country) pair is already recorded.
 *
 * `Imported` and `Loaded` say what importing one row and a sequence of rows
 * does to the tables; the lemmas below state what the command promises
 * about them. Class `Database` holds the tables the command updates in
 * place, and its methods are proved to act as these functions say.
 */
module LoadRecords {
  import opened Wrappers
  import opened Models

  /** One data row of the CSV file, already split into its four columns. */
  datatype CsvRow = CsvRow(date: Date, temperature: string, uncertainty: string, countryName: string)

  /** The error the command reports to the user. */
  datatype CommandError = CsvFileDoesNotExist(fileName: string)

  /** An empty column is stored as null; any other text is stored as given. */
  function NullIfEmpty(s: string): Option<Decimal>
  {
    if |s| == 0 then None else Some(s)
  }

  /** The Record a row asks to insert, once its Country row is known. */
  function RecordOf(row: CsvRow, country: CountryId): Record
  {
    Record(row.date, NullIfEmpty(row.temperature), NullIfEmpty(row.uncertainty), country)
  }

  /**
   * Importing one row: get or create the Country, then try to insert the
   * Record; an integrity error is swallowed and the row is skipped, keeping
   * whatever get-or-create did.
   */
  function Imported(t: Tables, row: CsvRow): Tables
  {
    var (t1, country, _) := GetOrCreateCountry(t, row.countryName);
    match CreateRecord(t1, RecordOf(row, country.id))
    case Ok(t2) => t2
    case Err(_) => t1
  }

  /** Importing the rows one after the other, in file order. */
  function Loaded(t: Tables, rows: seq<CsvRow>): Tables
    decreases |rows|
  {
    if rows == [] then t
    else Imported(Loaded(t, rows[..|rows| - 1]), rows[|rows| - 1])
  }

  /** The row's Country exists and a Record for its (date, country) pair exists. */
  predicate RowLoaded(t: Tables, row: CsvRow)
  {
    match FindCountry(t.countries, row.countryName)
    case None => false
    case Some(c) => HasRecord(t.records, row.date, c.id)
  }

  // ---------------------------------------------------------------------------
  // One row
  // ---------------------------------------------------------------------------

  /** Every import keeps unique names, unique (date, country) and resolving references. */
  lemma ImportValid(t: Tables, row: CsvRow)
    requires Valid(t)
    ensures Valid(Imported(t, row))
  {
    var (t1, country, _) := GetOrCreateCountry(t, row.countryName);
    GetOrCreateCountryValid(t, row.countryName);
    if CreateRecord(t1, RecordOf(row, country.id)).Ok? {
      CreateRecordValid(t1, RecordOf(row, country.id));
    }
  }

  /**
   * After an import exactly one Country has the row's name; an existing
   * one is reused and the table is then unchanged, and at most one Country
   * is added.
   */
  lemma ImportCountry(t: Tables, row: CsvRow)
    requires Valid(t)
    ensures CountNamed(Imported(t, row).countries, row.countryName) == 1
    ensures |Imported(t, row).countries| <= |t.countries| + 1
    ensures FindCountry(t.countries, row.countryName).Some? ==> Imported(t, row).countries == t.countries
  {
    GetOrCreateCountryValid(t, row.countryName);
  }

  /**
   * If a Record for the row's (date, country) pair already exists, the
   * import changes nothing at all: the first write wins.
   */
  lemma ImportExisting(t: Tables, row: CsvRow)
    requires RowLoaded(t, row)
    ensures Imported(t, row) == t
  {
  }

  /**
   * If no Record for the pair exists, exactly one Record is appended and no
   * other Record changes. Its temperature and uncertainty are each absent
   * exactly when the column is empty, and otherwise the column's text.
   */
  lemma ImportNew(t: Tables, row: CsvRow)
    requires Valid(t) && !RowLoaded(t, row)
    ensures var t' := Imported(t, row);
      && |t'.records| == |t.records| + 1
      && t'.records[..|t.records|] == t.records
      && var rec := t'.records[|t.records|];
      && rec.date == row.date
      && FindCountry(t'.countries, row.countryName).Some?
      && rec.country == FindCountry(t'.countries, row.countryName).value.id
      && (rec.temperature.None? <==> row.temperature == "")
      && (row.temperature != "" ==> rec.temperature == Some(row.temperature))
      && (rec.uncertainty.None? <==> row.uncertainty == "")
      && (row.uncertainty != "" ==> rec.uncertainty == Some(row.uncertainty))
  {
    var (t1, country, created) := GetOrCreateCountry(t, row.countryName);
    assert CountryExists(t1.countries, country.id);
    if created {
      // A fresh key: no Record can refer to it yet.
      forall r | r in t.records
        ensures r.country != country.id
      {
        var w :| w in t.countries && w.id == r.country;
      }
    }
    FindCountryAppend(t.countries, country, row.countryName);
    assert FindCountry(t1.countries, row.countryName) == Some(country);
    assert (t.records + [RecordOf(row, country.id)])[..|t.records|] == t.records;
  }

  /** After an import, the row counts as loaded. */
  lemma ImportLoadsRow(t: Tables, row: CsvRow)
    ensures RowLoaded(Imported(t, row), row)
  {
    var (t1, country, _) := GetOrCreateCountry(t, row.countryName);
    FindCountryAppend(t.countries, country, row.countryName);
    assert FindCountry(t1.countries, row.countryName) == Some(country);
    assert CountryExists(t1.countries, country.id);
    var rec := RecordOf(row, country.id);
    if CreateRecord(t1, rec).Ok? {
      assert rec in CreateRecord(t1, rec).value.records;
    }
  }

  /** Importing the same row twice gives the same tables as importing it once. */
  lemma ImportIdempotent(t: Tables, row: CsvRow)
    ensures Imported(Imported(t, row), row) == Imported(t, row)
  {
    ImportLoadsRow(t, row);
    ImportExisting(Imported(t, row), row);
  }

  /**
   * Two rows for the same date and country name: the second is dropped,
   * whatever its temperature and uncertainty.
   */
  lemma FirstWriteWins(t: Tables, first: CsvRow, second: CsvRow)
    requires first.date == second.date && first.countryName == second.countryName
    ensures Imported(Imported(t, first), second) == Imported(t, first)
  {
    ImportLoadsRow(t, first);
    ImportExisting(Imported(t, first), second);
  }

  /** Importing a row never unloads another: tables only grow, earlier lookups stay. */
  lemma ImportKeepsLoaded(t: Tables, row: CsvRow, other: CsvRow)
    requires RowLoaded(t, other)
    ensures RowLoaded(Imported(t, row), other)
  {
    var (t1, country, created) := GetOrCreateCountry(t, row.countryName);
    FindCountryAppend(t.countries, country, other.countryName);
    var c := FindCountry(t.countries, other.countryName).value;
    assert FindCountry(t1.countries, other.countryName) == Some(c);
    var w :| w in t.records && w.date == other.date && w.country == c.id;
    var rec := RecordOf(row, country.id);
    if CreateRecord(t1, rec).Ok? {
      assert w in CreateRecord(t1, rec).value.records;
    }
  }

  // ---------------------------------------------------------------------------
  // A sequence of rows
  // ---------------------------------------------------------------------------

  /** Loading keeps every constraint. */
  lemma {:induction false} LoadValid(t: Tables, rows: seq<CsvRow>)
    requires Valid(t)
    ensures Valid(Loaded(t, rows))
    decreases |rows|
  {
    if rows != [] {
      LoadValid(t, rows[..|rows| - 1]);
      ImportValid(Loaded(t, rows[..|rows| - 1]), rows[|rows| - 1]);
    }
  }

  /** After a load, every row of the input counts as loaded. */
  lemma {:induction false} LoadLoadsEveryRow(t: Tables, rows: seq<CsvRow>)
    ensures forall row | row in rows :: RowLoaded(Loaded(t, rows), row)
    decreases |rows|
  {
    if rows != [] {
      var init, last := rows[..|rows| - 1], rows[|rows| - 1];
      LoadLoadsEveryRow(t, init);
      forall row | row in rows
        ensures RowLoaded(Loaded(t, rows), row)
      {
        if row == last {
          ImportLoadsRow(Loaded(t, init), last);
        } else {
          var k :| 0 <= k < |rows| && rows[k] == row;
          assert init[k] == row;
          ImportKeepsLoaded(Loaded(t, init), last, row);
        }
      }
    }
  }

  /** Loading rows that are all loaded already changes nothing. */
  lemma {:induction false} LoadLoadedIsNoOp(t: Tables, rows: seq<CsvRow>)
    requires forall row | row in rows :: RowLoaded(t, row)
    ensures Loaded(t, rows) == t
    decreases |rows|
  {
    if rows != [] {
      var init := rows[..|rows| - 1];
      assert forall row | row in init :: row in rows;
      LoadLoadedIsNoOp(t, init);
      ImportExisting(t, rows[|rows| - 1]);
    }
  }

  /** Running the command a second time on the same rows leaves the tables as they were. */
  lemma LoadTwice(t: Tables, rows: seq<CsvRow>)
    ensures Loaded(Loaded(t, rows), rows) == Loaded(t, rows)
  {
    LoadLoadsEveryRow(t, rows);
    LoadLoadedIsNoOp(Loaded(t, rows), rows);
  }

  // ---------------------------------------------------------------------------
  // The database the command updates in place
  // ---------------------------------------------------------------------------

  /** The two tables as the command's ORM calls see and change them. */
  class Database {
    var countries: seq<Country>
    var records: seq<Record>
    var nextCountryId: CountryId

    /** The tables as a value. */
    function State(): Tables
      reads this
    {
      Tables(countries, records, nextCountryId)
    }

    /** The database always satisfies the declared constraints. */
    ghost predicate Valid()
      reads this
    {
      Models.Valid(State())
    }

    /** An empty database. */
    constructor ()
      ensures Valid() && State() == Empty()
    {
      countries, records, nextCountryId := [], [], 0;
    }

    /** `Country.objects.get_or_create(name=name)`, returning the row and whether it was created. */
    method GetOrCreateCountry(name: string) returns (country: Country, created: bool)
      requires Valid()
      modifies this
      ensures Valid()
      ensures (State(), country, created) == Models.GetOrCreateCountry(old(State()), name)
    {
      GetOrCreateCountryValid(State(), name);
      match FindCountry(countries, name)
      case Some(c) =>
        country, created := c, false;
      case None =>
        country, created := Country(nextCountryId, name), true;
        countries := countries + [country];
        nextCountryId := nextCountryId + 1;
    }

    /** `Record.objects.create(...)`: the created row, or the IntegrityError raised. */
    method CreateRecord(record: Record) returns (result: Result<Record, IntegrityError>)
      requires Valid()
      modifies this
      ensures Valid()
      ensures match Models.CreateRecord(old(State()), record)
        case Ok(t) => result == Ok(record) && State() == t
        case Err(e) => result == Err(e) && State() == old(State())
    {
      if !CountryExists(countries, record.country) {
        result := Err(ForeignKeyViolation);
      } else if HasRecord(records, record.date, record.country) {
        result := Err(UniqueDateCountryViolation);
      } else {
        CreateRecordValid(State(), record);
        records := records + [record];
        result := Ok(record);
      }
    }

    /** `_import_record_from_csv_row`: import one row, skipping it on an IntegrityError. */
    method ImportRecordFromCsvRow(row: CsvRow)
      requires Valid()
      modifies this
      ensures Valid()
      ensures State() == Imported(old(State()), row)
    {
      var country, _ := GetOrCreateCountry(row.countryName);
      var result := CreateRecord(RecordOf(row, country.id));
      // An IntegrityError leaves the row skipped; the loader carries on.
    }

    /** `load_data`: import the rows one after the other, in file order. */
    method LoadData(rows: seq<CsvRow>)
      requires Valid()
      modifies this
      ensures Valid()
      ensures State() == Loaded(old(State()), rows)
    {
      for i := 0 to |rows|
        invariant Valid()
        invariant State() == Loaded(old(State()), rows[..i])
      {
        assert rows[..i + 1][..i] == rows[..i];
        ImportRecordFromCsvRow(rows[i]);
      }
      assert rows[..|rows|] == rows;
    }

    /**
     * `Command.handle`: `csv` is the content of the named file, or None when
     * no such file exists. A missing file is reported before any row is
     * processed, and the tables are then unchanged.
     */
    method Handle(csvFileName: string, csv: Option<seq<CsvRow>>) returns (result: Result<(), CommandError>)
      requires Valid()
      modifies this
      ensures Valid()
      ensures csv.None? ==> result == Err(CsvFileDoesNotExist(csvFileName)) && State() == old(State())
      ensures csv.Some? ==> result == Ok(()) && State() == Loaded(old(State()), csv.value)
    {
      if csv.None? {
        return Err(CsvFileDoesNotExist(csvFileName));
      }
      LoadData(csv.value);
      result := Ok(());
    }
  }
}
