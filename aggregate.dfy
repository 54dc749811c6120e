/**
 * The text-search run (scraping.py:153-315): for every city, for every
 * court of that city that is not marked inactive, search the portal and
 * concatenate the downloaded rows, tagging each with its court (`Entidad`)
 * and city (`Ciudad`). The portal's answer to each search is an input:
 * `search(city)(court)` says what happened when that court was searched.
 */
module Aggregate {
  import opened Wrappers
  import opened Text
  import opened Options

  /** One row of a result table: column name to cell text. */
  type Row = map<string, string>

  const InactiveMarker: string := "(Inactivo)"
  const EntidadColumn: string := "Entidad"
  const CiudadColumn: string := "Ciudad"

  /** A court is searched unless its label contains "(Inactivo)"; the test is case-sensitive. */
  predicate IsActive(e: Entry)
    ensures |e.key| < |InactiveMarker| ==> IsActive(e)
  {
    !Contains(e.key, InactiveMarker)
  }

  /** How the portal answers one court search (`scrap_entity`). */
  datatype EntitySearch =
    | ErrorWindow                 // the error window opened after selecting the court or after submitting
    | Raised                      // a wait timed out, or the download or the CSV parse failed
    | Downloaded(rows: seq<Row>)  // the CSV export: its first six columns, one map per data row

  /** How the portal answers the selection of one city (`scrap_city` before its loop). */
  datatype CityPage =
    | CityErrorWindow                            // the error window opened after selecting the city
    | CityRaised                                 // a wait timed out before the court list was read
    | Listed(courtOptions: seq<SelectOption>)    // the court dropdown's options

  /** How the run starts (`scraping_by_text` before its loop). */
  datatype Start =
    | StartErrorWindow                           // the error window opened on the entry page
    | StartRaised                                // the browser or the city list could not be obtained
    | Cities(cityOptions: seq<SelectOption>)     // the city dropdown's options

  /** `df[column] = v`: every row gets the column, overwriting any earlier value. */
  function SetColumn(rows: seq<Row>, column: string, v: string): (r: seq<Row>)
    ensures |r| == |rows|
    ensures forall i :: 0 <= i < |r| ==> column in r[i] && r[i][column] == v
    ensures forall i, c :: 0 <= i < |r| && c != column ==>
              (c in r[i] <==> c in rows[i]) && (c in rows[i] ==> r[i][c] == rows[i][c])
  {
    seq(|rows|, i requires 0 <= i < |rows| => rows[i][column := v])
  }

  /**
   * `scrap_entity`'s outcome: `None` when it raised, an empty table after an
   * error window, else the downloaded rows with `Entidad` set to the label.
   */
  function ScrapEntity(name: string, s: EntitySearch): (r: Option<seq<Row>>)
    ensures r.None? <==> s.Raised?
    ensures s.ErrorWindow? ==> r == Some([])
    ensures s.Downloaded? ==> r.Some? && |r.value| == |s.rows|
    ensures s.Downloaded? ==> forall i :: 0 <= i < |s.rows| ==>
              EntidadColumn in r.value[i] && r.value[i][EntidadColumn] == name
    ensures s.Downloaded? ==> forall i, c :: 0 <= i < |s.rows| && c != EntidadColumn ==>
              (c in r.value[i] <==> c in s.rows[i]) && (c in s.rows[i] ==> r.value[i][c] == s.rows[i][c])
  {
    match s
    case ErrorWindow => Some([])
    case Raised => None
    case Downloaded(rows) => Some(SetColumn(rows, EntidadColumn, name))
  }

  /** What one court adds to its city's table: its rows, or nothing when it raised. */
  function Contribution(e: Entry, s: EntitySearch): (r: seq<Row>)
    ensures forall k :: 0 <= k < |r| ==> EntidadColumn in r[k] && r[k][EntidadColumn] == e.key
  {
    match ScrapEntity(e.key, s)
    case Some(rows) => rows
    case None => []
  }

  // ------------------------------------------------------- one city

  /** The courts the loop over `courts` searches: the active ones, in order. */
  function Active(courts: Dict): (r: Dict)
    ensures forall e :: e in r <==> e in courts && IsActive(e)
  {
    if courts == [] then []
    else
      var n := |courts| - 1;
      Active(courts[..n]) + (if IsActive(courts[n]) then [courts[n]] else [])
  }

  /** The rows `scrap_city`'s loop has concatenated after visiting `courts`, before `Ciudad` is set. */
  function Collected(courts: Dict, search: Entry -> EntitySearch): (r: seq<Row>)
    ensures forall k :: 0 <= k < |r| ==> EntidadColumn in r[k]
  {
    if courts == [] then []
    else
      var n := |courts| - 1;
      Collected(courts[..n], search)
        + (if IsActive(courts[n]) then Contribution(courts[n], search(courts[n])) else [])
  }

  /** `scrap_city`'s outcome: `None` when it raised, else its table with `Ciudad` set on every row. */
  function CityResult(city: string, page: CityPage, search: Entry -> EntitySearch): (r: Option<seq<Row>>)
    ensures r.None? <==> page.CityRaised?
    ensures page.CityErrorWindow? ==> r == Some([])
    ensures r.Some? ==> forall k :: 0 <= k < |r.value| ==>
              CiudadColumn in r.value[k] && r.value[k][CiudadColumn] == city && EntidadColumn in r.value[k]
  {
    match page
    case CityErrorWindow => Some([])
    case CityRaised => None
    case Listed(opts) => Some(SetColumn(Collected(GetOptions(opts), search), CiudadColumn, city))
  }

  /** The courts `scrap_city` searches for a city page. */
  function CitySearched(page: CityPage): Dict
  {
    if page.Listed? then Active(GetOptions(page.courtOptions)) else []
  }

  /**
   * `scrap_city`: read the court list, search every active court in order,
   * concatenate what each returns (a court that raises adds nothing and the
   * loop goes on), then set `Ciudad` on every row.
   */
  method ScrapCity(city: string, page: CityPage, search: Entry -> EntitySearch)
    returns (df: Option<seq<Row>>, searched: Dict)
    ensures df == CityResult(city, page, search)
    ensures searched == CitySearched(page)
  {
    match page {
      case CityErrorWindow =>
        return Some([]), [];
      case CityRaised =>
        return None, [];
      case Listed(opts) =>
        var courts := GetOptions(opts);
        var rows: seq<Row> := [];
        searched := [];
        for i := 0 to |courts|
          invariant rows == Collected(courts[..i], search)
          invariant searched == Active(courts[..i])
        {
          assert courts[..i + 1][..i] == courts[..i];
          var court := courts[i];
          if IsActive(court) {
            searched := searched + [court];
            var got := ScrapEntity(court.key, search(court));
            if got.Some? {
              rows := rows + got.value;
            }
          }
        }
        assert courts[..|courts|] == courts;
        df := Some(SetColumn(rows, CiudadColumn, city));
    }
  }

  // -------------------------------------------------------- all cities

  /** What one city adds to the run's table: its rows, or nothing when `scrap_city` raised. */
  function CityRows(city: Entry, page: Entry -> CityPage, search: Entry -> Entry -> EntitySearch): (r: seq<Row>)
    ensures forall k :: 0 <= k < |r| ==> CiudadColumn in r[k] && r[k][CiudadColumn] == city.key && EntidadColumn in r[k]
  {
    match CityResult(city.key, page(city), search(city))
    case Some(rows) => rows
    case None => []
  }

  /** The rows `scraping_by_text`'s loop has concatenated after visiting `cities`. */
  function AllRows(cities: Dict, page: Entry -> CityPage, search: Entry -> Entry -> EntitySearch): (r: seq<Row>)
    ensures forall k :: 0 <= k < |r| ==> CiudadColumn in r[k] && EntidadColumn in r[k]
  {
    if cities == [] then []
    else
      var n := |cities| - 1;
      AllRows(cities[..n], page, search) + CityRows(cities[n], page, search)
  }

  /** Each court of `courts` paired with its city. */
  function WithCity(city: Entry, courts: Dict): seq<(Entry, Entry)>
  {
    seq(|courts|, i requires 0 <= i < |courts| => (city, courts[i]))
  }

  /** Every (city, court) pair `scraping_by_text` searches after visiting `cities`. */
  function AllSearched(cities: Dict, page: Entry -> CityPage): seq<(Entry, Entry)>
  {
    if cities == [] then []
    else
      var n := |cities| - 1;
      AllSearched(cities[..n], page) + WithCity(cities[n], CitySearched(page(cities[n])))
  }

  /**
   * `scraping_by_text`: unless the start fails, run `scrap_city` for every
   * city in order, concatenating what each returns; a city that raises adds
   * nothing and the loop goes on.
   */
  method ScrapingByText(start: Start, page: Entry -> CityPage, search: Entry -> Entry -> EntitySearch)
    returns (df: seq<Row>, searched: seq<(Entry, Entry)>)
    ensures !start.Cities? ==> df == [] && searched == []
    ensures start.Cities? ==> df == AllRows(GetOptions(start.cityOptions), page, search)
    ensures start.Cities? ==> searched == AllSearched(GetOptions(start.cityOptions), page)
  {
    df, searched := [], [];
    if !start.Cities? {
      return;
    }
    var cities := GetOptions(start.cityOptions);
    for i := 0 to |cities|
      invariant df == AllRows(cities[..i], page, search)
      invariant searched == AllSearched(cities[..i], page)
    {
      assert cities[..i + 1][..i] == cities[..i];
      var city := cities[i];
      var got, courts := ScrapCity(city.key, page(city), search(city));
      searched := searched + WithCity(city, courts);
      if got.Some? {
        df := df + got.value;
      }
    }
    assert cities[..|cities|] == cities;
  }

  // ------------------------------------------------------------ lemmas

  /** The loop's result over two runs of courts is the concatenation of the two. */
  lemma {:induction false} CollectedAppend(a: Dict, b: Dict, search: Entry -> EntitySearch)
    ensures Collected(a + b, search) == Collected(a, search) + Collected(b, search)
    decreases |b|
  {
    if b != [] {
      var n := |b| - 1;
      assert a + b == (a + b[..n]) + [b[n]];
      assert b == b[..n] + [b[n]];
      CollectedSnoc(a + b[..n], b[n], search);
      CollectedSnoc(b[..n], b[n], search);
      CollectedAppend(a, b[..n], search);
    } else {
      assert a + b == a;
    }
  }

  /** One more court adds its contribution, if it is active, at the end. */
  lemma CollectedSnoc(cs: Dict, c: Entry, search: Entry -> EntitySearch)
    ensures Collected(cs + [c], search)
            == Collected(cs, search) + (if IsActive(c) then Contribution(c, search(c)) else [])
  {
    assert (cs + [c])[..|cs|] == cs;
  }

  /** A court that is inactive, raises or shows the error window contributes no row. */
  lemma FailingCourtCollectsNothing(court: Entry, search: Entry -> EntitySearch)
    requires !IsActive(court) || search(court).Raised? || search(court).ErrorWindow?
    ensures Collected([court], search) == []
  {
    assert [court][..0] == [];
    if IsActive(court) {
      assert Contribution(court, search(court)) == [];
    }
  }

  /**
   * A court that is inactive, raises or shows the error window adds no row,
   * and the courts after it are searched as if it were not there.
   */
  lemma FailingCourtAddsNothing(before: Dict, court: Entry, after: Dict, search: Entry -> EntitySearch)
    requires !IsActive(court) || search(court).Raised? || search(court).ErrorWindow?
    ensures Collected(before + [court] + after, search) == Collected(before, search) + Collected(after, search)
  {
    FailingCourtCollectsNothing(court, search);
    CollectedAppend(before, [court], search);
    CollectedAppend(before + [court], after, search);
    assert Collected(before + [court], search) == Collected(before, search);
  }

  /** The active courts of an earlier run come before those of a later one: page order is kept. */
  lemma {:induction false} ActiveAppend(a: Dict, b: Dict)
    ensures Active(a + b) == Active(a) + Active(b)
    decreases |b|
  {
    if b != [] {
      var n := |b| - 1;
      assert a + b == (a + b[..n]) + [b[n]];
      assert b == b[..n] + [b[n]];
      ActiveSnoc(a + b[..n], b[n]);
      ActiveSnoc(b[..n], b[n]);
      ActiveAppend(a, b[..n]);
    } else {
      assert a + b == a;
    }
  }

  /** One more court is kept, at the end, exactly when it is active. */
  lemma ActiveSnoc(cs: Dict, c: Entry)
    ensures Active(cs + [c]) == Active(cs) + (if IsActive(c) then [c] else [])
  {
    assert (cs + [c])[..|cs|] == cs;
  }

  /** Every collected row names, in `Entidad`, an active court of the city. */
  lemma {:induction false} CollectedEntidad(courts: Dict, search: Entry -> EntitySearch, row: Row)
    requires row in Collected(courts, search)
    ensures EntidadColumn in row
    ensures exists e :: e in courts && IsActive(e) && row[EntidadColumn] == e.key
  {
    var n := |courts| - 1;
    if row in Collected(courts[..n], search) {
      CollectedEntidad(courts[..n], search, row);
      var e :| e in courts[..n] && IsActive(e) && row[EntidadColumn] == e.key;
      assert e in courts;
    } else {
      var s := search(courts[n]);
      var i :| 0 <= i < |s.rows| && Contribution(courts[n], s)[i] == row;
    }
  }

  /**
   * Every row of a city's table has `Ciudad` set to the city and `Entidad`
   * set to one of the courts searched for it.
   */
  lemma CityRowsTagged(city: string, page: CityPage, search: Entry -> EntitySearch, row: Row)
    requires CityResult(city, page, search).Some? && row in CityResult(city, page, search).value
    ensures CiudadColumn in row && row[CiudadColumn] == city
    ensures EntidadColumn in row && exists e :: e in CitySearched(page) && row[EntidadColumn] == e.key
  {
    var rows := Collected(GetOptions(page.courtOptions), search);
    var i :| 0 <= i < |rows| && row == rows[i][CiudadColumn := city];
    CollectedEntidad(GetOptions(page.courtOptions), search, rows[i]);
  }

  /** The run's result over two runs of cities is the concatenation of the two. */
  lemma {:induction false} AllRowsAppend(a: Dict, b: Dict, page: Entry -> CityPage, search: Entry -> Entry -> EntitySearch)
    ensures AllRows(a + b, page, search) == AllRows(a, page, search) + AllRows(b, page, search)
    decreases |b|
  {
    if b != [] {
      var n := |b| - 1;
      assert a + b == (a + b[..n]) + [b[n]];
      assert b == b[..n] + [b[n]];
      AllRowsSnoc(a + b[..n], b[n], page, search);
      AllRowsSnoc(b[..n], b[n], page, search);
      AllRowsAppend(a, b[..n], page, search);
    } else {
      assert a + b == a;
    }
  }

  /** One more city adds its rows at the end. */
  lemma AllRowsSnoc(cs: Dict, c: Entry, page: Entry -> CityPage, search: Entry -> Entry -> EntitySearch)
    ensures AllRows(cs + [c], page, search) == AllRows(cs, page, search) + CityRows(c, page, search)
  {
    assert (cs + [c])[..|cs|] == cs;
  }

  /** A city that raises adds no row, and the cities after it are still searched. */
  lemma FailingCityAddsNothing(before: Dict, city: Entry, after: Dict, page: Entry -> CityPage, search: Entry -> Entry -> EntitySearch)
    requires page(city).CityRaised? || page(city).CityErrorWindow?
    ensures AllRows(before + [city] + after, page, search) == AllRows(before, page, search) + AllRows(after, page, search)
  {
    assert AllRows([city], page, search) == [] by {
      assert [city][..0] == [];
      assert CityRows(city, page, search) == [];
    }
    AllRowsAppend(before, [city], page, search);
    AllRowsAppend(before + [city], after, page, search);
  }

  /** No (city, court) pair the run searches has an inactive court, and its city is one of the cities. */
  lemma {:induction false} AllSearchedActive(cities: Dict, page: Entry -> CityPage, p: (Entry, Entry))
    requires p in AllSearched(cities, page)
    ensures p.0 in cities && IsActive(p.1)
  {
    var n := |cities| - 1;
    if p in AllSearched(cities[..n], page) {
      AllSearchedActive(cities[..n], page, p);
      assert p.0 in cities;
    } else {
      var courts := CitySearched(page(cities[n]));
      var i :| 0 <= i < |courts| && p == (cities[n], courts[i]);
      assert courts[i] in courts;
    }
  }

  /**
   * Every row of the run comes from a (city, court) pair the run searched:
   * `Ciudad` names that city and `Entidad` that court, which
   * `AllSearchedActive` shows to be a listed city and an active court.
   */
  lemma {:induction false} AllRowsTagged(cities: Dict, page: Entry -> CityPage, search: Entry -> Entry -> EntitySearch, row: Row)
    requires row in AllRows(cities, page, search)
    ensures CiudadColumn in row && EntidadColumn in row
    ensures exists p :: p in AllSearched(cities, page) && row[CiudadColumn] == p.0.key && row[EntidadColumn] == p.1.key
  {
    var n := |cities| - 1;
    if row in AllRows(cities[..n], page, search) {
      AllRowsTagged(cities[..n], page, search, row);
      var p :| p in AllSearched(cities[..n], page) && row[CiudadColumn] == p.0.key && row[EntidadColumn] == p.1.key;
      assert p in AllSearched(cities, page);
    } else {
      var c := cities[n];
      CityRowsTagged(c.key, page(c), search(c), row);
      var courts := CitySearched(page(c));
      var e :| e in courts && row[EntidadColumn] == e.key;
      var i :| 0 <= i < |courts| && courts[i] == e;
      assert WithCity(c, courts)[i] == (c, courts[i]);
      assert (c, courts[i]) in AllSearched(cities, page);
    }
  }

  /** The label of the example's active court. */
  lemma ExampleActiveCourt()
    ensures IsActive(Entry("JUZGADO 1 CIVIL", "101"))
  {
    NotContainsChar("JUZGADO 1 CIVIL", InactiveMarker, 0);
  }

  /** The label of the example's inactive court. */
  lemma ExampleInactiveCourt()
    ensures !IsActive(Entry("JUZGADO 2 CIVIL (Inactivo)", "102"))
  {
    assert OccursAt("JUZGADO 2 CIVIL (Inactivo)", "(Inactivo)", 16);
    ContainsIff("JUZGADO 2 CIVIL (Inactivo)", "(Inactivo)");
  }

  /** The marker test is case-sensitive: a court marked "(INACTIVO)" is still searched. */
  lemma UpperCaseMarkerIsActive()
    ensures IsActive(Entry("JUZGADO 3 CIVIL (INACTIVO)", "103"))
  {
    NotContainsChar("JUZGADO 3 CIVIL (INACTIVO)", InactiveMarker, 2);
  }

  /**
   * One city whose page lists a placeholder, an active court and an inactive
   * court, the active court's export holding two rows: the run returns
   * exactly those two rows, tagged with the active court and the city.
   */
  lemma OneCityExampleRows(city: Entry, active: Entry, inactive: Entry,
                           cityPlaceholder: SelectOption, courtPlaceholder: SelectOption,
                           page: Entry -> CityPage, search: Entry -> Entry -> EntitySearch, csv: seq<Row>)
    requires IsActive(active) && !IsActive(inactive) && active.key != inactive.key
    requires page(city) == Listed([courtPlaceholder, SelectOption(active.key, active.value),
                                   SelectOption(inactive.key, inactive.value)])
    requires search(city)(active) == Downloaded(csv)
    requires |csv| == 2
    ensures var rows := AllRows(GetOptions([cityPlaceholder, SelectOption(city.key, city.value)]), page, search);
            |rows| == 2
            && forall i :: 0 <= i < 2 ==> EntidadColumn in rows[i] && CiudadColumn in rows[i]
                                          && rows[i][EntidadColumn] == active.key && rows[i][CiudadColumn] == city.key
  {
    var cityOpts := [cityPlaceholder, SelectOption(city.key, city.value)];
    var only := [SelectOption(city.key, city.value)];
    assert cityOpts[1..] == only && only[..0] == [];
    assert DictOf(only) == Put(DictOf([]), city.key, city.value);
    assert GetOptions(cityOpts) == [city];
    var courts := TwoCourts(courtPlaceholder, active, inactive);
    var tagged := SetColumn(csv, EntidadColumn, active.key);
    assert courts[..1][..0] == [] && courts[..1] == [active];
    assert Contribution(active, search(city)(active)) == tagged;
    assert Collected(courts[..1], search(city)) == tagged;
    assert Collected(courts, search(city)) == tagged;
    assert [city][..0] == [];
    assert AllRows([city], page, search) == SetColumn(tagged, CiudadColumn, city.key);
  }

  /** In the same situation only the active court is searched; the inactive one never is. */
  lemma OneCityExampleSearched(city: Entry, active: Entry, inactive: Entry,
                               cityPlaceholder: SelectOption, courtPlaceholder: SelectOption,
                               page: Entry -> CityPage)
    requires IsActive(active) && !IsActive(inactive) && active.key != inactive.key
    requires page(city) == Listed([courtPlaceholder, SelectOption(active.key, active.value),
                                   SelectOption(inactive.key, inactive.value)])
    ensures AllSearched(GetOptions([cityPlaceholder, SelectOption(city.key, city.value)]), page) == [(city, active)]
  {
    var cityOpts := [cityPlaceholder, SelectOption(city.key, city.value)];
    var only := [SelectOption(city.key, city.value)];
    assert cityOpts[1..] == only && only[..0] == [];
    assert DictOf(only) == Put(DictOf([]), city.key, city.value);
    assert GetOptions(cityOpts) == [city];
    var courts := TwoCourts(courtPlaceholder, active, inactive);
    assert courts[..1] == [active] && [active][..0] == [];
    assert Active([active]) == [active];
    assert CitySearched(page(city)) == [active];
    assert [city][..0] == [];
    assert WithCity(city, [active]) == [(city, active)];
  }

  /** A placeholder and two courts with different labels give a dict of the two courts. */
  lemma TwoCourts(placeholder: SelectOption, first: Entry, second: Entry) returns (courts: Dict)
    requires first.key != second.key
    ensures courts == [first, second]
    ensures GetOptions([placeholder, SelectOption(first.key, first.value), SelectOption(second.key, second.value)]) == courts
  {
    var tail := [SelectOption(first.key, first.value), SelectOption(second.key, second.value)];
    assert [placeholder, tail[0], tail[1]][1..] == tail;
    assert tail[..1][..0] == [] && tail[..2][..1] == tail[..1] && tail[..2] == tail;
    assert DictOf(tail[..1]) == [first];
    assert Put([first], second.key, second.value) == [first, second];
    courts := [first, second];
  }
}
