/** What the dashboard shows of the filtered rows: the three count metrics
    (app.py lines 92-94) and the rows sorted by year for the globe and the
    ledger (line 99). */
module Ledger {
  import opened Wrappers
  import opened Sorting
  import opened Text
  import opened Loader
  import opened YearOptions

  // --------------------------------------------------------------- metrics

  /** The distinct non-missing values of one column (`nunique()` counts these). */
  function PresentValues(rows: seq<Row>, column: Record -> Option<string>): (vs: set<string>)
    ensures forall v :: v in vs <==> exists row :: row in rows && column(row.rec) == Some(v)
    ensures |vs| <= |rows|
  {
    if rows == [] then {}
    else
      var head := match column(rows[0].rec) case Some(v) => {v} case None => {};
      var rest := PresentValues(rows[1..], column);
      assert forall row :: row in rows ==> row == rows[0] || row in rows[1..];
      assert |head + rest| <= |head| + |rest|;
      head + rest
  }

  function CountryOf(r: Record): Option<string> { r.country }
  function InstitutionOf(r: Record): Option<string> { r.institution }

  /** The three metric cards. */
  datatype Metrics = Metrics(totalProjects: nat, nationsImpacted: nat, universityPartners: nat)

  /** "Total Projects" is the number of rows; "Nations Impacted" and
      "University Partners" count the distinct present countries and
      institutions, never more than the rows, and zero exactly when the column
      holds no value. */
  function ComputeMetrics(rows: seq<Row>): (m: Metrics)
    ensures m.totalProjects == |rows|
    ensures m.nationsImpacted <= m.totalProjects && m.universityPartners <= m.totalProjects
    ensures m.nationsImpacted == 0 <==> forall row :: row in rows ==> row.rec.country.None?
    ensures m.universityPartners == 0 <==> forall row :: row in rows ==> row.rec.institution.None?
  {
    var nations := PresentValues(rows, CountryOf);
    var partners := PresentValues(rows, InstitutionOf);
    assert nations == {} ==> forall row :: row in rows ==> row.rec.country.None?;
    assert partners == {} ==> forall row :: row in rows ==> row.rec.institution.None?;
    Metrics(|rows|, |nations|, |partners|)
  }

  /** The nation count is the size of the set of present countries. */
  lemma NationsAreDistinctCountries(rows: seq<Row>)
    ensures ComputeMetrics(rows).nationsImpacted ==
      |set row | row in rows && row.rec.country.Some? :: row.rec.country.value|
    ensures ComputeMetrics(rows).universityPartners ==
      |set row | row in rows && row.rec.institution.Some? :: row.rec.institution.value|
  {
    var nations := set row | row in rows && row.rec.country.Some? :: row.rec.country.value;
    assert PresentValues(rows, CountryOf) == nations;
    var partners := set row | row in rows && row.rec.institution.Some? :: row.rec.institution.value;
    assert PresentValues(rows, InstitutionOf) == partners;
  }

  /** The metrics do not depend on row order, so computing them before the
      sort (as the source does) gives those of the sorted rows. */
  lemma MetricsIgnoreOrder(a: seq<Row>, b: seq<Row>)
    requires multiset(a) == multiset(b)
    ensures ComputeMetrics(a) == ComputeMetrics(b)
  {
    PermutationMembers(a, b);
    assert PresentValues(a, CountryOf) == PresentValues(b, CountryOf);
    assert PresentValues(a, InstitutionOf) == PresentValues(b, InstitutionOf);
  }

  // -------------------------------------------------------- sort by year

  /** Chronological order of loaded rows: by the integer value of `Year_Str`. */
  predicate NotLater(a: Row, b: Row) {
    YearNumber(a.yearStr) <= YearNumber(b.yearStr)
  }

  /** The rows in non-decreasing year order: a permutation of the input, with
      every row's year no later than the next one's. */
  function SortByYear(rows: seq<Row>): (r: seq<Row>)
    requires forall row :: row in rows ==> ParseInt(row.yearStr).Some?
    ensures multiset(r) == multiset(rows)
    ensures forall row :: row in r ==> ParseInt(row.yearStr).Some?
    ensures forall i, j :: 0 <= i < j < |r| ==> ParseInt(r[i].yearStr).value <= ParseInt(r[j].yearStr).value
  {
    assert TotalPreorder(NotLater);
    var sorted := SortWith(rows, NotLater);
    PermutationMembers(rows, sorted);
    assert forall i, j :: 0 <= i < j < |sorted| ==> NotLater(sorted[i], sorted[j]);
    sorted
  }

  /** `sort_values("Year")` as written: by the raw Year cell. When that column
      holds text, pandas compares the texts code point by code point. */
  predicate RawYearLe(a: Row, b: Row) {
    LexLe(a.rec.year, b.rec.year)
  }

  function SortByRawYear(rows: seq<Row>): (r: seq<Row>)
    ensures multiset(r) == multiset(rows)
    ensures forall i, j :: 0 <= i < j < |r| ==> LexLe(r[i].rec.year, r[j].rec.year)
  {
    LexLeTotalPreorder();
    assert TotalPreorder(RawYearLe);
    var sorted := SortWith(rows, RawYearLe);
    assert forall i, j :: 0 <= i < j < |sorted| ==> RawYearLe(sorted[i], sorted[j]);
    sorted
  }

  /** A sorted permutation of two elements, the second strictly before the first. */
  lemma SortedPair<T>(a: T, b: T, r: seq<T>, le: (T, T) -> bool)
    requires multiset(r) == multiset{a, b} && SortedBy(r, le) && !le(a, b)
    ensures r == [b, a]
  {
    assert |r| == |multiset(r)| == 2;
    assert r[0] in multiset(r) && r[1] in multiset(r);
    assert r == [r[0], r[1]];
  }

  /** Sorting by the raw text swaps two rows whose raw years are out of order. */
  lemma RawSortSwaps(a: Row, b: Row)
    requires !LexLe(a.rec.year, b.rec.year)
    ensures SortByRawYear([a, b]) == [b, a]
  {
    var r := SortByRawYear([a, b]);
    assert multiset([a, b]) == multiset{a, b};
    assert SortedBy(r, RawYearLe);
    SortedPair(a, b, r, RawYearLe);
  }

  /** Sorting by year value swaps two rows whose years are out of order. */
  lemma YearSortSwaps(a: Row, b: Row)
    requires ParseInt(a.yearStr).Some? && ParseInt(b.yearStr).Some?
    requires ParseInt(a.yearStr).value > ParseInt(b.yearStr).value
    ensures SortByYear([a, b]) == [b, a]
  {
    var r := SortByYear([a, b]);
    assert multiset([a, b]) == multiset{a, b};
    assert SortedBy(r, NotLater);
    SortedPair(a, b, r, NotLater);
  }

  /** A row loaded from the year cell "2019". */
  const Older: Row := Row(Record("2019", None, None, None, None, Some("0"), Some("0")), StripCommas("2019"))

  /** A row loaded from the year cell "2,020". */
  const Newer: Row := Row(Record("2,020", None, None, None, None, Some("1"), Some("1")), StripCommas("2,020"))

  lemma ExampleYears()
    ensures ParseInt(Older.yearStr) == Some(2019) && ParseInt(Newer.yearStr) == Some(2020)
    ensures !LexLe(Older.rec.year, Newer.rec.year)
  {
    ParseStrippedYear();
    StripCommasNoComma("2019");
    assert "2019"[..3] == "201" && "201"[..2] == "20" && "20"[..1] == "2" && "2"[..0] == "";
    assert DigitsValue("2019") == 2019;
    assert "2019"[1..] == "019" && "2,020"[1..] == ",020";
  }

  /** Sorting these two rows by the raw text puts 2020 before 2019, because
      ',' precedes '0'. */
  lemma RawYearSortIsNotChronological()
    ensures SortByRawYear([Older, Newer]) == [Newer, Older]
    ensures ParseInt(Older.yearStr) == Some(2019) && ParseInt(Newer.yearStr) == Some(2020)
  {
    ExampleYears();
    RawSortSwaps(Older, Newer);
  }

  /** The chronological sort puts the same two rows in year order. */
  lemma YearSortIsChronological()
    ensures ParseInt(Older.yearStr).Some? && ParseInt(Newer.yearStr).Some?
    ensures SortByYear([Newer, Older]) == [Older, Newer]
  {
    ExampleYears();
    YearSortSwaps(Newer, Older);
  }
}
