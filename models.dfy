/**
 * The two tables declared in temperature/models.py, the constraints those
 * declarations put on them, and the database operations the record loader
 * relies on: looking a Country up by name, get-or-create, inserting a Record
 * under the table constraints, and the cascade that deleting a Country
 * triggers.
 *
 * A table is the sequence of its rows in insertion order. Country rows carry
 * the primary key the database assigns from a counter; a Record refers to
 * its Country by that key.
 */
module Models {
  import opened Wrappers

  /** A calendar date as the loader receives it; the model never parses it. */
  type Date = string

  /** A decimal value as the loader receives it; the model never parses it. */
  type Decimal = string

  /** The primary key the database assigns to a Country row. */
  type CountryId = nat

  /** A row of the Country table. */
  datatype Country = Country(id: CountryId, name: string)

  /**
   * A row of the Record table. Temperature and uncertainty are nullable
   * columns; `country` is the foreign key to a Country row.
   */
  datatype Record = Record(
    date: Date,
    temperature: Option<Decimal>,
    uncertainty: Option<Decimal>,
    country: CountryId)

  /** Both tables, and the key the next inserted Country row will receive. */
  datatype Tables = Tables(countries: seq<Country>, records: seq<Record>, nextCountryId: CountryId)

  /** The constraint violations the database reports on an insert. */
  datatype IntegrityError = UniqueDateCountryViolation | ForeignKeyViolation

  // ---------------------------------------------------------------------------
  // Constraints
  // ---------------------------------------------------------------------------

  /** Primary keys of Country rows are distinct. */
  ghost predicate UniqueIds(cs: seq<Country>) {
    forall i, j | 0 <= i < j < |cs| :: cs[i].id != cs[j].id
  }

  /** Every assigned key is below the counter, so the counter is a fresh key. */
  ghost predicate IdsBelow(cs: seq<Country>, next: CountryId) {
    forall c | c in cs :: c.id < next
  }

  /** `name` is declared unique: no two Country rows share a name. */
  ghost predicate UniqueNames(cs: seq<Country>) {
    forall i, j | 0 <= i < j < |cs| :: cs[i].name != cs[j].name
  }

  /** `unique_together = ('date', 'country')`: at most one Record per pair. */
  ghost predicate UniqueDateCountry(rs: seq<Record>) {
    forall i, j | 0 <= i < j < |rs| :: rs[i].date != rs[j].date || rs[i].country != rs[j].country
  }

  /** Some Country row has primary key `id`. */
  predicate CountryExists(cs: seq<Country>, id: CountryId) {
    exists c | c in cs :: c.id == id
  }

  /** Some Record row has this (date, country) pair. */
  predicate HasRecord(rs: seq<Record>, date: Date, country: CountryId) {
    exists r | r in rs :: r.date == date && r.country == country
  }

  /** The foreign key of every Record resolves to a Country row. */
  ghost predicate ReferencesResolve(t: Tables) {
    forall r | r in t.records :: CountryExists(t.countries, r.country)
  }

  /** Every state the database can be in satisfies all declared constraints. */
  ghost predicate Valid(t: Tables) {
    && UniqueIds(t.countries)
    && IdsBelow(t.countries, t.nextCountryId)
    && UniqueNames(t.countries)
    && UniqueDateCountry(t.records)
    && ReferencesResolve(t)
  }

  /** The freshly migrated, empty database. */
  function Empty(): (t: Tables)
    ensures Valid(t)
    ensures t.countries == [] && t.records == []
  {
    Tables([], [], 0)
  }

  /**
   * Changing the temperature or the uncertainty of a Record, to a value or
   * to null, each independently of the other, never breaks a constraint:
   * both columns are nullable and take part in no constraint.
   */
  lemma MeasurementsAreIndependent(t: Tables, i: nat, temperature: Option<Decimal>, uncertainty: Option<Decimal>)
    requires Valid(t) && i < |t.records|
    ensures Valid(t.(records := t.records[i := t.records[i].(temperature := temperature, uncertainty := uncertainty)]))
  {
    var rs := t.records[i := t.records[i].(temperature := temperature, uncertainty := uncertainty)];
    forall r | r in rs
      ensures CountryExists(t.countries, r.country)
    {
      var k :| 0 <= k < |rs| && rs[k] == r;
      assert t.records[k] in t.records;
    }
  }

  // ---------------------------------------------------------------------------
  // Country lookups
  // ---------------------------------------------------------------------------

  /** `Country.objects.get(name=name)`: the Country row with this name, if any. */
  function FindCountry(cs: seq<Country>, name: string): (r: Option<Country>)
    ensures r.Some? ==> r.value in cs && r.value.name == name
    ensures r.None? <==> forall c | c in cs :: c.name != name
  {
    if cs == [] then None
    else if cs[0].name == name then Some(cs[0])
    else FindCountry(cs[1..], name)
  }

  /** The number of Country rows named `name`. */
  function CountNamed(cs: seq<Country>, name: string): nat
  {
    if cs == [] then 0
    else (if cs[0].name == name then 1 else 0) + CountNamed(cs[1..], name)
  }

  lemma {:induction false} CountNamedAbsent(cs: seq<Country>, name: string)
    requires forall c | c in cs :: c.name != name
    ensures CountNamed(cs, name) == 0
  {
    if cs != [] {
      assert cs[0] in cs;
      CountNamedAbsent(cs[1..], name);
    }
  }

  /** Under the unique-name constraint, a name that is found names exactly one row. */
  lemma {:induction false} ExactlyOneNamed(cs: seq<Country>, name: string)
    requires UniqueNames(cs)
    requires FindCountry(cs, name).Some?
    ensures CountNamed(cs, name) == 1
  {
    if cs[0].name == name {
      forall c | c in cs[1..]
        ensures c.name != name
      {
        var j :| 0 <= j < |cs[1..]| && cs[1..][j] == c;
        assert cs[j + 1] == c;
      }
      CountNamedAbsent(cs[1..], name);
    } else {
      ExactlyOneNamed(cs[1..], name);
    }
  }

  /** Under the unique-name constraint, the lookup returns THE row with that name. */
  lemma FindCountryUnique(cs: seq<Country>, c: Country)
    requires UniqueNames(cs) && c in cs
    ensures FindCountry(cs, c.name) == Some(c)
  {
    var found := FindCountry(cs, c.name).value;
    var i :| 0 <= i < |cs| && cs[i] == c;
    var j :| 0 <= j < |cs| && cs[j] == found;
    assert !(i < j) && !(j < i);
  }

  /** Appending a row never changes what an earlier lookup found. */
  lemma {:induction false} FindCountryAppend(cs: seq<Country>, c: Country, name: string)
    ensures FindCountry(cs + [c], name) ==
      if FindCountry(cs, name).Some? then FindCountry(cs, name)
      else if c.name == name then Some(c)
      else None
  {
    if cs == [] {
      assert cs + [c] == [c];
    } else {
      assert (cs + [c])[1..] == cs[1..] + [c];
      FindCountryAppend(cs[1..], c, name);
    }
  }

  // ---------------------------------------------------------------------------
  // get_or_create and create
  // ---------------------------------------------------------------------------

  /**
   * `Country.objects.get_or_create(name=name)`: the existing row with this
   * name, or a new row with a fresh key appended to the table. The third
   * component tells whether a row was created.
   */
  function GetOrCreateCountry(t: Tables, name: string): (r: (Tables, Country, bool))
    ensures r.1.name == name && r.1 in r.0.countries
    ensures r.0.records == t.records
    ensures r.2 <==> FindCountry(t.countries, name).None?
    ensures !r.2 ==> r.0 == t && Some(r.1) == FindCountry(t.countries, name)
    ensures r.2 ==> r.0.countries == t.countries + [r.1] && r.1.id == t.nextCountryId
  {
    match FindCountry(t.countries, name)
    case Some(c) => (t, c, false)
    case None =>
      var c := Country(t.nextCountryId, name);
      (t.(countries := t.countries + [c], nextCountryId := t.nextCountryId + 1), c, true)
  }

  /**
   * Get-or-create keeps every constraint, leaves exactly one row with the
   * name, reuses an existing row untouched, and adds at most one row.
   */
  lemma GetOrCreateCountryValid(t: Tables, name: string)
    requires Valid(t)
    ensures Valid(GetOrCreateCountry(t, name).0)
    ensures CountNamed(GetOrCreateCountry(t, name).0.countries, name) == 1
    ensures |GetOrCreateCountry(t, name).0.countries| <= |t.countries| + 1
    ensures forall c | c in t.countries && c.name == name :: GetOrCreateCountry(t, name) == (t, c, false)
  {
    var (t', c, created) := GetOrCreateCountry(t, name);
    if created {
      var cs := t'.countries;
      assert cs[|cs| - 1] == c;
      forall i, j | 0 <= i < j < |cs|
        ensures cs[i].id != cs[j].id && cs[i].name != cs[j].name
      {
        if j == |cs| - 1 {
          assert cs[i] in t.countries;
        }
      }
      forall r | r in t'.records
        ensures CountryExists(t'.countries, r.country)
      {
        var w :| w in t.countries && w.id == r.country;
        assert w in t'.countries;
      }
    }
    ExactlyOneNamed(t'.countries, name);
    forall w | w in t.countries && w.name == name
      ensures GetOrCreateCountry(t, name) == (t, w, false)
    {
      FindCountryUnique(t.countries, w);
    }
  }

  /**
   * `Record.objects.create(...)` under the table constraints: the insert is
   * refused with an integrity error exactly when the foreign key does not
   * resolve or the (date, country) pair is already taken; otherwise the row
   * is appended and nothing else changes.
   */
  function CreateRecord(t: Tables, rec: Record): (r: Result<Tables, IntegrityError>)
    ensures r.Ok? <==> CountryExists(t.countries, rec.country) && !HasRecord(t.records, rec.date, rec.country)
    ensures r.Ok? ==> r.value.countries == t.countries && r.value.nextCountryId == t.nextCountryId
    ensures r.Ok? ==> r.value.records == t.records + [rec]
  {
    if !CountryExists(t.countries, rec.country) then Err(ForeignKeyViolation)
    else if HasRecord(t.records, rec.date, rec.country) then Err(UniqueDateCountryViolation)
    else Ok(t.(records := t.records + [rec]))
  }

  /** An insert the database accepts keeps every constraint. */
  lemma CreateRecordValid(t: Tables, rec: Record)
    requires Valid(t) && CreateRecord(t, rec).Ok?
    ensures Valid(CreateRecord(t, rec).value)
  {
    var rs := CreateRecord(t, rec).value.records;
    forall i, j | 0 <= i < j < |rs|
      ensures rs[i].date != rs[j].date || rs[i].country != rs[j].country
    {
      if j == |rs| - 1 {
        assert rs[i] in t.records;
      }
    }
  }

  // ---------------------------------------------------------------------------
  // Cascade delete
  // ---------------------------------------------------------------------------

  /** The Country rows whose key is not `id`, in table order. */
  function CountriesExcept(cs: seq<Country>, id: CountryId): (r: seq<Country>)
    ensures forall c :: c in r <==> c in cs && c.id != id
  {
    if cs == [] then []
    else if cs[0].id == id then CountriesExcept(cs[1..], id)
    else [cs[0]] + CountriesExcept(cs[1..], id)
  }

  /** The Record rows that do not refer to Country `id`, in table order. */
  function RecordsExcept(rs: seq<Record>, id: CountryId): (r: seq<Record>)
    ensures forall rec :: rec in r <==> rec in rs && rec.country != id
  {
    if rs == [] then []
    else if rs[0].country == id then RecordsExcept(rs[1..], id)
    else [rs[0]] + RecordsExcept(rs[1..], id)
  }

  /**
   * Deleting Country `id`: `on_delete=CASCADE` deletes the Records that
   * refer to it together with it.
   */
  function DeleteCountry(t: Tables, id: CountryId): (r: Tables)
    ensures forall c :: c in r.countries <==> c in t.countries && c.id != id
    ensures forall rec :: rec in r.records <==> rec in t.records && rec.country != id
    ensures r.nextCountryId == t.nextCountryId
  {
    t.(countries := CountriesExcept(t.countries, id), records := RecordsExcept(t.records, id))
  }

  lemma {:induction false} CountriesExceptUnique(cs: seq<Country>, id: CountryId)
    requires UniqueIds(cs) && UniqueNames(cs)
    ensures UniqueIds(CountriesExcept(cs, id)) && UniqueNames(CountriesExcept(cs, id))
  {
    if cs != [] {
      CountriesExceptUnique(cs[1..], id);
      var rest := CountriesExcept(cs[1..], id);
      if cs[0].id != id {
        var r := [cs[0]] + rest;
        forall j | 0 < j < |r|
          ensures r[0].id != r[j].id && r[0].name != r[j].name
        {
          assert r[j] in rest;
          var k :| 0 <= k < |cs[1..]| && cs[1..][k] == r[j];
          assert cs[k + 1] == r[j];
        }
        forall i, j | 0 <= i < j < |r|
          ensures r[i].id != r[j].id && r[i].name != r[j].name
        {
          if 0 < i {
            assert r[i] == rest[i - 1] && r[j] == rest[j - 1];
          }
        }
      }
    }
  }

  lemma {:induction false} RecordsExceptUnique(rs: seq<Record>, id: CountryId)
    requires UniqueDateCountry(rs)
    ensures UniqueDateCountry(RecordsExcept(rs, id))
  {
    if rs != [] {
      RecordsExceptUnique(rs[1..], id);
      var rest := RecordsExcept(rs[1..], id);
      if rs[0].country != id {
        var r := [rs[0]] + rest;
        forall j | 0 < j < |r|
          ensures r[0].date != r[j].date || r[0].country != r[j].country
        {
          assert r[j] in rest;
          var k :| 0 <= k < |rs[1..]| && rs[1..][k] == r[j];
          assert rs[k + 1] == r[j];
        }
        forall i, j | 0 <= i < j < |r|
          ensures r[i].date != r[j].date || r[i].country != r[j].country
        {
          if 0 < i {
            assert r[i] == rest[i - 1] && r[j] == rest[j - 1];
          }
        }
      }
    }
  }

  /**
   * The cascade keeps every constraint: in particular no Record is left
   * referring to the deleted Country.
   */
  lemma DeleteCountryValid(t: Tables, id: CountryId)
    requires Valid(t)
    ensures Valid(DeleteCountry(t, id))
  {
    var t' := DeleteCountry(t, id);
    CountriesExceptUnique(t.countries, id);
    RecordsExceptUnique(t.records, id);
    forall r | r in t'.records
      ensures CountryExists(t'.countries, r.country)
    {
      var w :| w in t.countries && w.id == r.country;
      assert w in t'.countries;
    }
  }
}
