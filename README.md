# Temperature records: tables and CSV loader

A model of the data core of a small Django application that stores
temperature observations per country and date. Two tables are declared in
`temperature/models.py`: `Country`, whose `name` is unique, and `Record`. A
`Record` has a date, an optional temperature, an optional uncertainty and a
foreign key to its `Country` with cascade delete. At most one `Record` may
exist per (date, country). The `load_records` management command imports a
CSV file of (date, temperature, uncertainty, country name) rows. For each row
it gets or creates the `Country` by name, stores empty columns as null, and
inserts the `Record`. When the (date, country) pair is already taken, the
database raises an `IntegrityError`, which the command swallows, so the row is
skipped and the command can be re-run.

Files:

- `wrappers.dfy`: `Option` and `Result`.
- `models.dfy` (module `Models`): the tables as values. `Tables` holds both
  tables as sequences of rows in insertion order, plus the counter that
  assigns Country primary keys. `Valid` is the conjunction of the declared
  constraints (unique keys, unique names, unique (date, country), resolving
  foreign keys) and of `IdsBelow`, which keeps the key counter fresh. The
  loader calls the lookup by name, `get_or_create` and `create`; these are
  functions here. The cascade declared by `on_delete=CASCADE` is modelled as
  well, though nothing in the loader deletes. Each operation that changes the
  tables has a lemma showing that it preserves `Valid`.
- `load_records.dfy` (module `LoadRecords`): `Imported` and `Loaded` say what
  importing one row and a sequence of rows does to the tables. The lemmas
  state the loader's promises about them: first write wins, idempotence of a
  row and of a whole re-run, exactly one Country per name, and the invariant
  kept. Class `Database` holds the tables that the command changes in place.
  Its methods model the ORM calls, `_import_record_from_csv_row`, `load_data`
  and `Command.handle`. Each method is proved to act as those functions say,
  and to keep `Valid`.

Dates and decimals are opaque strings and are never parsed. A CSV file is
given as `Option<seq<CsvRow>>`: `None` stands for a path where no file
exists, and `Some(rows)` for the data rows of an existing file, each already
split into its four columns.

## Model

| member | source | states |
|---|---|---|
| `Models.UniqueNames` | temperature/models.py:7-10 | defines the `unique=True` constraint on `name`: no two Country rows share a name |
| `Models.UniqueDateCountry` | temperature/models.py:41-42 | defines `unique_together = ('date', 'country')`: no two Record rows share both date and Country |
| `Models.ReferencesResolve` | temperature/models.py:36-39 | defines the foreign-key constraint: every Record's `country` is the key of some Country row |
| `Models.Valid` | temperature/models.py:4-42 | defines the state the database is always in: unique Country keys below the key counter, unique names, unique (date, country), and resolving foreign keys |
| `Models.Empty` | temperature/models.py:4-42 | the empty database satisfies every declared constraint |
| `Models.MeasurementsAreIndependent` | temperature/models.py:18-34 | setting a Record's temperature and uncertainty to any value or null, each independently, keeps every constraint |
| `Models.FindCountry` | temperature/management/commands/load_records.py:15 | the lookup by name that get-or-create performs returns a row of the table with that name, and returns nothing exactly when no row has that name |
| `Models.ExactlyOneNamed` | temperature/models.py:7-10 | under the unique-name constraint, a name that is found is carried by exactly one Country row |
| `Models.FindCountryUnique` | temperature/models.py:7-10 | under the unique-name constraint, the lookup returns the one row with that name |
| `Models.FindCountryAppend` | temperature/management/commands/load_records.py:15 | adding a Country row never changes what an earlier lookup found; the new row is found only when its name was absent before |
| `Models.GetOrCreateCountry` | temperature/management/commands/load_records.py:15 | returns a row with the name that is in the table afterwards; leaves Records alone; creates exactly when the name was absent, appending one row with a fresh key, and otherwise returns the existing row and changes nothing |
| `Models.GetOrCreateCountryValid` | temperature/management/commands/load_records.py:15 | get-or-create keeps every constraint, leaves exactly one Country with the name, grows the table by at most one row, and reuses an existing row with that name untouched |
| `Models.CreateRecord` | temperature/models.py:36-42 | an insert succeeds exactly when the foreign key resolves and the (date, country) pair is free; on success the row is appended and nothing else changes; otherwise an integrity error |
| `Models.CreateRecordValid` | temperature/models.py:36-42 | an insert that the database accepts keeps every constraint |
| `Models.CountriesExcept` | temperature/models.py:36-39 | keeps exactly the Country rows whose key is not the deleted one |
| `Models.RecordsExcept` | temperature/models.py:36-39 | keeps exactly the Record rows that do not refer to the deleted Country |
| `Models.DeleteCountry` | temperature/models.py:36-39 | deleting a Country removes that Country and exactly the Records that refer to it; every other Country and Record stays |
| `Models.CountriesExceptUnique` | temperature/models.py:7-10 | removing Country rows keeps keys and names unique |
| `Models.RecordsExceptUnique` | temperature/models.py:41-42 | removing Record rows keeps (date, country) unique |
| `Models.DeleteCountryValid` | temperature/models.py:36-39 | the cascade keeps every constraint; in particular no Record is left referring to the deleted Country |
| `LoadRecords.NullIfEmpty` | temperature/management/commands/load_records.py:20-21 | defines the column conversion: an empty column becomes null, any other text is kept as given |
| `LoadRecords.Imported` | temperature/management/commands/load_records.py:12-28 | defines importing one row: get or create the Country by name, then insert the Record, and on an integrity error keep the tables as get-or-create left them |
| `LoadRecords.Loaded` | temperature/management/commands/load_records.py:31-40 | defines loading a file: the rows imported one after the other, in file order |
| `LoadRecords.ImportValid` | temperature/management/commands/load_records.py:12-28 | importing a row keeps unique names, unique (date, country) and resolving references |
| `LoadRecords.ImportCountry` | temperature/management/commands/load_records.py:15 | after importing a row exactly one Country has its name; at most one Country is added; an existing Country is reused and the Country table is then unchanged |
| `LoadRecords.ImportExisting` | temperature/management/commands/load_records.py:17-28 | when a Record for the row's (date, country) already exists, the import leaves both tables unchanged: the first write wins |
| `LoadRecords.ImportNew` | temperature/management/commands/load_records.py:18-23 | when no such Record exists, exactly one Record is appended and earlier Records are unchanged; it carries the row's date and its Country's key; each of temperature and uncertainty is null exactly when its column is empty, and otherwise the column's text |
| `LoadRecords.ImportLoadsRow` | temperature/management/commands/load_records.py:12-28 | after importing a row, its Country and a Record for its (date, country) exist, whether the insert succeeded or was skipped |
| `LoadRecords.ImportIdempotent` | temperature/management/commands/load_records.py:24-28 | importing the same row twice gives the same tables as importing it once |
| `LoadRecords.FirstWriteWins` | temperature/management/commands/load_records.py:24-28 | a second row with the same date and country name is dropped, whatever its temperature and uncertainty |
| `LoadRecords.ImportKeepsLoaded` | temperature/management/commands/load_records.py:12-28 | importing a row never removes another row's Country or Record |
| `LoadRecords.LoadValid` | temperature/management/commands/load_records.py:31-40 | loading a row sequence keeps every constraint |
| `LoadRecords.LoadLoadsEveryRow` | temperature/management/commands/load_records.py:31-40 | after loading, every input row has its Country and a Record for its (date, country) |
| `LoadRecords.LoadLoadedIsNoOp` | temperature/management/commands/load_records.py:31-40 | loading rows that are all present already changes nothing |
| `LoadRecords.LoadTwice` | temperature/management/commands/load_records.py:31-40 | loading a sequence and then loading the same sequence again leaves the tables as after the first load |
| `LoadRecords.Database.GetOrCreateCountry` | temperature/management/commands/load_records.py:15 | the new tables, the row and the created flag are those of get-or-create on the old tables; the constraints still hold |
| `LoadRecords.Database.CreateRecord` | temperature/management/commands/load_records.py:18-23 | returns the created row and updates the tables as an accepted insert does, or returns the integrity error and leaves the tables unchanged |
| `LoadRecords.Database.ImportRecordFromCsvRow` | temperature/management/commands/load_records.py:12-28 | the new tables are `Imported(old tables, row)`, with an integrity error swallowed; the constraints still hold |
| `LoadRecords.Database.LoadData` | temperature/management/commands/load_records.py:31-40 | the rows are imported in order: the new tables are `Loaded(old tables, rows)`; the constraints still hold |
| `LoadRecords.Database.Handle` | temperature/management/commands/load_records.py:49-68 | a missing file is reported as an error naming the file before any row is processed, and the tables are unchanged; otherwise all rows are loaded and the command succeeds |

## Left out

- CSV tokenising with `csv.DictReader`, opening the file and `os.path.exists`: these are I/O. Input is a sequence of already split four-column rows, and the file's existence is the `Option` around it. `load_data` passes the columns by position (`*row.values()`), not by header name, so `CsvRow`'s field order assumes that each row's values come in header order and that the header is (date, temperature, uncertainty, country). On Python versions where `csv.DictReader` yields an unordered dict (2.7, and 3.0 to 3.5), the four values can arrive in any order; that case is not modelled.
- Malformed rows with the wrong number of columns raise an unhandled error in the source. Rows are four-tuples by construction here.
- LoadRecords.Database.Handle: does not model the abort on a malformed value. When a Record is saved, Django's own field code parses the date (`DateField.to_python`) and converts and quantizes the decimals (`DecimalField.to_python`), enforcing `max_digits=6` and `decimal_places=3`; that framework code is not part of this model. An unparsable date or decimal, or a decimal with too many digits, raises an error that is not an `IntegrityError`, so the `except` at temperature/management/commands/load_records.py:24 does not catch it and `load_data` stops at that row. The earlier rows, and the Country that get-or-create made for that row, stay stored. The model accepts any text as a date or decimal, compares dates as strings, and its `Handle` loads every row of an existing file and returns `Ok`.
- Neither model declares `Meta.ordering`. Table order is insertion order, and no ordering is modelled.
- The `max_length=100` limit on Country names: not modelled. Whether it is enforced depends on the database backend, and no settings file is part of this model. SQLite does not enforce it. PostgreSQL raises a `DataError` inside the `get_or_create` at temperature/management/commands/load_records.py:15, which is outside the `try`, so `load_data` stops at that row with the earlier rows kept, as on the malformed-value path above.
- Primary keys are unbounded naturals. The database's integer key width is not modelled, and Record rows carry no key of their own because nothing in the core uses one.
- Transactions and concurrent writers, such as two loaders racing on get-or-create: the command runs alone and each statement commits on its own.
- Nothing in the core deletes a Country. The cascade is modelled as the function `Models.DeleteCountry` with its lemmas, and not as a method of `Database`.
- The messages written to stdout by `Command.handle`, and the argument wiring in `add_arguments`.
- The `bulk_create` optimisation in the TODO comment of `load_data`: it is not implemented.
- The list view, URL routing, admin registration and the view test: framework configuration with no logic of their own.
