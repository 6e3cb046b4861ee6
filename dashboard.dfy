/** One run of the dashboard script for one user interaction: load the table,
    build the year options, narrow by the sidebar's criteria, count, and sort
    by year for the globe and the ledger. */
module Dashboard {
  import opened Wrappers
  import opened Seqs
  import opened Text
  import opened Loader
  import opened YearOptions
  import opened SidebarOptions
  import opened Filters
  import opened Ledger

  /** What the sidebar holds: the year choice is None while the widget still
      shows its default (every year); the other selections start empty. */
  datatype Sidebar = Sidebar(
    years: Option<seq<string>>,
    institutions: seq<string>,
    countries: seq<string>,
    query: string)

  /** What the page shows: the offered years, institutions and countries, the
      metric cards, and the rows handed to the globe and the ledger. */
  datatype View = View(
    yearOptions: seq<string>,
    institutionOptions: seq<Option<string>>,
    countryOptions: seq<string>,
    metrics: Metrics,
    ledger: seq<Row>)

  /** Why a run stops before anything is shown: `int` raises ValueError on a
      year text (line 60), or `sorted` raises TypeError on an institution
      column that mixes missing and present cells (line 64). */
  datatype Failure = NotAnInteger(year: string) | UnorderableInstitutions

  /** The criteria the filter chain receives. */
  function CriteriaOf(sidebar: Sidebar, options: seq<string>): Criteria {
    Criteria(
      match sidebar.years case Some(ys) => ys case None => options,
      sidebar.institutions, sidebar.countries, sidebar.query)
  }

  /** The script from `load_data()` to the sort before plotting. It stops
      where Python raises: at line 60 when a loaded year is not an integer
      numeral, otherwise at line 64 when the institution column mixes missing
      and present cells. */
  method Run(csv: seq<Record>, sidebar: Sidebar) returns (r: Result<View, Failure>)
    ensures r.Err? <==>
      (exists row :: row in Loaded(csv) && ParseInt(row.yearStr).None?) || MixedInstitutions(Loaded(csv))
    ensures (exists row :: row in Loaded(csv) && ParseInt(row.yearStr).None?) ==>
      r.Err? && r.error.NotAnInteger?
    ensures r.Err? && r.error.NotAnInteger? ==>
      ParseInt(r.error.year).None? && exists row :: row in Loaded(csv) && row.yearStr == r.error.year
    ensures r == Err(UnorderableInstitutions) ==> MixedInstitutions(Loaded(csv))
    ensures r.Ok? ==> AllYears(Loaded(csv)) == Ok(r.value.yearOptions)
    ensures r.Ok? ==> InstitutionOptions(Loaded(csv)) == Some(r.value.institutionOptions)
    ensures r.Ok? ==> CountryOptions(Loaded(csv)) == r.value.countryOptions
    ensures r.Ok? ==>
      var shown := Filtered(Loaded(csv), CriteriaOf(sidebar, r.value.yearOptions));
      && multiset(r.value.ledger) == multiset(shown)
      && r.value.metrics == ComputeMetrics(shown)
      && r.value.metrics == ComputeMetrics(r.value.ledger)
      && r.value.metrics.totalProjects == |r.value.ledger|
    ensures r.Ok? ==> forall row :: row in r.value.ledger ==> ParseInt(row.yearStr).Some?
    ensures r.Ok? ==> forall i, j :: 0 <= i < j < |r.value.ledger| ==>
      ParseInt(r.value.ledger[i].yearStr).value <= ParseInt(r.value.ledger[j].yearStr).value
    ensures r.Ok? && sidebar == Sidebar(None, [], [], "") ==>
      multiset(r.value.ledger) == multiset(Loaded(csv))
  {
    var df := LoadData(csv);
    var years := AllYears(df);
    if years.Err? {
      return Err(NotAnInteger(years.error));
    }
    var institutions := InstitutionOptions(df);
    if institutions.None? {
      return Err(UnorderableInstitutions);
    }
    var countries := CountryOptions(df);
    var c := CriteriaOf(sidebar, years.value);
    var filtered := ApplyFilters(df, c);
    var metrics := ComputeMetrics(filtered);
    FilteredIsSubsequence(df, c);
    var ledger := SortByYear(filtered);
    MetricsIgnoreOrder(filtered, ledger);
    if sidebar == Sidebar(None, [], [], "") {
      DefaultYearsKeepAll(df, years.value);
    }
    r := Ok(View(years.value, institutions.value, countries, metrics, ledger));
  }

  // ------------------------------------------------------ a worked example

  const Kenya2019 := Record("2019", Some("A"), Some("Wells"), Some("Kenya"), Some("Jane Doe"), Some("0"), Some("0"))
  const Palestine2020 := Record("2020", Some("B"), Some("Camp"), Some("Palestine"), Some("John Roe"), Some("1"), Some("1"))
  const NoLatitude2020 := Record("2020", Some("A"), Some("Books"), None, Some("Ann"), None, Some("2"))

  const ExampleCsv := [Kenya2019, Palestine2020, NoLatitude2020]
  const ExampleTable := [Row(Kenya2019, "2019"), Row(Palestine2020, "2020")]

  /** Loading the three records drops the one without a latitude. */
  lemma ExampleLoad()
    ensures Loaded(ExampleCsv) == ExampleTable
  {
    StripCommasNoComma("2019");
    StripCommasNoComma("2020");
    var csv := ExampleCsv;
    assert csv[1..] == [Palestine2020, NoLatitude2020];
    assert csv[1..][1..] == [NoLatitude2020];
    assert Where([NoLatitude2020], HasCoordinates) == Where([], HasCoordinates) == [];
    assert Where(csv[1..], HasCoordinates) == [Palestine2020] + Where(csv[1..][1..], HasCoordinates);
    assert Where(csv, HasCoordinates) == [Kenya2019] + Where(csv[1..], HasCoordinates);
  }

  /** Keeping the table's second row only, when the criteria admit just it. */
  lemma ExampleKeepsSecond(c: Criteria)
    requires !Matches(c, ExampleTable[0]) && Matches(c, ExampleTable[1])
    ensures Filtered(ExampleTable, c) == [ExampleTable[1]]
  {
    var df := ExampleTable;
    assert df[1..] == [df[1]] && df[1..][1..] == [];
    assert Where(df[1..], row => Matches(c, row)) == [df[1]] + Where(df[1..][1..], row => Matches(c, row));
  }

  /** Keeping the table's first row only, when the criteria admit just it. */
  lemma ExampleKeepsFirst(c: Criteria)
    requires Matches(c, ExampleTable[0]) && !Matches(c, ExampleTable[1])
    ensures Filtered(ExampleTable, c) == [ExampleTable[0]]
  {
    var df := ExampleTable;
    assert df[1..] == [df[1]] && df[1..][1..] == [];
    assert Where(df[1..], row => Matches(c, row)) == Where(df[1..][1..], row => Matches(c, row));
    assert Where(df, row => Matches(c, row)) == [df[0]] + Where(df[1..], row => Matches(c, row));
  }

  /** Selecting the year 2020 keeps the Palestine row only. */
  lemma ExampleYearFilter()
    ensures Filtered(Loaded(ExampleCsv), Criteria(["2020"], [], [], "")) == [Row(Palestine2020, "2020")]
  {
    ExampleLoad();
    ExampleKeepsSecond(Criteria(["2020"], [], [], ""));
  }

  lemma ExampleLowerCase()
    ensures Lower("JANE") == "jane" && Lower("Jane Doe") == "jane doe"
    ensures Lower("Camp") == "camp" && Lower("John Roe") == "john roe"
  {
  }

  lemma ExampleSubstrings()
    ensures Contains("jane doe", "jane")
    ensures !Contains("camp", "jane")
    ensures !Contains("john roe", "jane")
  {
    assert "jane" <= "jane doe";
    assert !Contains("camp", "jane") by {
      assert "camp"[0] != "jane"[0];
      ContainsNeedsRoom("camp"[1..], "jane");
    }
    assert !Contains("john roe", "jane") by {
      assert "john roe"[1] != "jane"[1];
      assert "john roe"[1..] == "ohn roe" && "ohn roe"[0] != "jane"[0];
      assert "ohn roe"[1..] == "hn roe" && "hn roe"[0] != "jane"[0];
      assert "hn roe"[1..] == "n roe" && "n roe"[0] != "jane"[0];
      assert "n roe"[1..] == " roe" && " roe"[0] != "jane"[0];
      ContainsNeedsRoom(" roe"[1..], "jane");
      assert !Contains(" roe", "jane");
      assert !Contains("n roe", "jane");
      assert !Contains("hn roe", "jane");
      assert !Contains("ohn roe", "jane");
    }
  }

  /** Searching "JANE" over both years keeps the Kenya row only: its leader is
      "Jane Doe", and neither "Camp" nor "John Roe" contains "jane". */
  lemma ExampleSearch()
    ensures Filtered(Loaded(ExampleCsv), Criteria(["2020", "2019"], [], [], "JANE")) == [Row(Kenya2019, "2019")]
  {
    ExampleLoad();
    ExampleLowerCase();
    ExampleSubstrings();
    var c := Criteria(["2020", "2019"], [], [], "JANE");
    assert MatchesIgnoringCase(Kenya2019.leaders, "JANE");
    assert !MatchesIgnoringCase(Palestine2020.title, "JANE");
    assert !MatchesIgnoringCase(Palestine2020.leaders, "JANE");
    ExampleKeepsFirst(c);
  }

  const NoInstitution2021 := Record("2021", None, Some("Clinic"), Some("Peru"), Some("Ann"), Some("2"), Some("2"))

  /** A table with one missing and one present institution stops the script
      at line 64, before anything is filtered or shown. */
  lemma ExampleUnorderableInstitutions()
    ensures InstitutionOptions(Loaded([Kenya2019, NoInstitution2021])).None?
  {
    var csv := [Kenya2019, NoInstitution2021];
    assert csv[1..] == [NoInstitution2021] && csv[1..][1..] == [];
    assert Where(csv, HasCoordinates) == csv;
    var df := Loaded(csv);
    assert df[0].rec == Kenya2019 && df[1].rec == NoInstitution2021;
    assert df[0] in df && df[1] in df;
  }
}
