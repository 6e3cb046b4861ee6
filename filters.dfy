/** The filter chain (app.py lines 75-84). The year filter is always applied;
    the institution, country and keyword filters only when their selection or
    query is non-empty. Each applied filter narrows the previous result. */
module Filters {
  import opened Wrappers
  import opened Seqs
  import opened Text
  import opened Loader
  import opened YearOptions

  /** The sidebar's selections and the keyword query. */
  datatype Criteria = Criteria(
    years: seq<string>,
    institutions: seq<string>,
    countries: seq<string>,
    query: string)

  /** One boolean mask of the chain. */
  datatype Mask =
    | YearIn(years: seq<string>)
    | InstitutionIn(institutions: seq<string>)
    | CountryIn(countries: seq<string>)
    | Search(query: string)

  /** `Series.isin`: a missing cell is in no list of texts. */
  function IsIn(cell: Option<string>, selection: seq<string>): (b: bool)
    ensures cell.None? ==> !b
    ensures b <==> exists i :: 0 <= i < |selection| && cell == Some(selection[i])
  {
    cell.Some? && cell.value in selection
  }

  /** The keyword mask: title OR leaders contain the query, ignoring case. */
  predicate SearchHolds(row: Row, query: string) {
    MatchesIgnoringCase(row.rec.title, query) || MatchesIgnoringCase(row.rec.leaders, query)
  }

  predicate Holds(m: Mask, row: Row) {
    match m
    case YearIn(ys) => row.yearStr in ys
    case InstitutionIn(xs) => IsIn(row.rec.institution, xs)
    case CountryIn(xs) => IsIn(row.rec.country, xs)
    case Search(q) => SearchHolds(row, q)
  }

  /** `rows[mask]`. */
  function Select(rows: seq<Row>, m: Mask): seq<Row> {
    Where(rows, row => Holds(m, row))
  }

  /** The masks the chain applies, in the order the source applies them. */
  function ActiveMasks(c: Criteria): (ms: seq<Mask>)
    ensures |ms| > 0 && ms[0] == YearIn(c.years)
    ensures InstitutionIn(c.institutions) in ms <==> c.institutions != []
    ensures CountryIn(c.countries) in ms <==> c.countries != []
    ensures Search(c.query) in ms <==> c.query != ""
    ensures forall m :: m in ms ==>
      m in [YearIn(c.years), InstitutionIn(c.institutions), CountryIn(c.countries), Search(c.query)]
  {
    [YearIn(c.years)]
    + (if c.institutions != [] then [InstitutionIn(c.institutions)] else [])
    + (if c.countries != [] then [CountryIn(c.countries)] else [])
    + (if c.query != "" then [Search(c.query)] else [])
  }

  /** Sequential narrowing by a list of masks. */
  function ApplyAll(rows: seq<Row>, ms: seq<Mask>): seq<Row>
    decreases |ms|
  {
    if ms == [] then rows else ApplyAll(Select(rows, ms[0]), ms[1..])
  }

  predicate AllHold(ms: seq<Mask>, row: Row) {
    forall m :: m in ms ==> Holds(m, row)
  }

  /** The criteria as one conjunction: empty institution, country and query
      selections impose nothing, an empty year selection admits nothing. */
  predicate Matches(c: Criteria, row: Row) {
    && row.yearStr in c.years
    && (c.institutions == [] || IsIn(row.rec.institution, c.institutions))
    && (c.countries == [] || IsIn(row.rec.country, c.countries))
    && (c.query == "" || SearchHolds(row, c.query))
  }

  /** The rows of the table the criteria admit, in table order. */
  function Filtered(df: seq<Row>, c: Criteria): seq<Row> {
    Where(df, row => Matches(c, row))
  }

  // ------------------------------------------------------- sequential chain

  /** Narrowing by one more mask. */
  lemma {:induction false} ApplyAllSnoc(rows: seq<Row>, ms: seq<Mask>, m: Mask)
    ensures ApplyAll(rows, ms + [m]) == Select(ApplyAll(rows, ms), m)
    decreases |ms|
  {
    if ms == [] {
      assert [] + [m] == [m];
      assert [m][1..] == [];
    } else {
      assert (ms + [m])[0] == ms[0];
      assert (ms + [m])[1..] == ms[1..] + [m];
      ApplyAllSnoc(Select(rows, ms[0]), ms[1..], m);
    }
  }

  /** Sequential narrowing keeps exactly the rows every mask admits. */
  lemma {:induction false} ApplyAllIsConjunction(rows: seq<Row>, ms: seq<Mask>)
    ensures ApplyAll(rows, ms) == Where(rows, row => AllHold(ms, row))
    decreases |ms|
  {
    if ms == [] {
      WhereKeepsAll(rows, row => AllHold(ms, row));
    } else {
      ApplyAllIsConjunction(Select(rows, ms[0]), ms[1..]);
      assert forall m :: m in ms ==> m == ms[0] || m in ms[1..];
      WhereFuse(rows, row => Holds(ms[0], row), row => AllHold(ms[1..], row), row => AllHold(ms, row));
    }
  }

  /** The order in which masks are applied does not matter. */
  lemma ApplyAllOrderIrrelevant(rows: seq<Row>, ms: seq<Mask>, ns: seq<Mask>)
    requires forall m :: m in ms <==> m in ns
    ensures ApplyAll(rows, ms) == ApplyAll(rows, ns)
  {
    ApplyAllIsConjunction(rows, ms);
    ApplyAllIsConjunction(rows, ns);
    WhereExtensional(rows, row => AllHold(ms, row), row => AllHold(ns, row));
  }

  /** Applying the active masks one after another is the conjunction. */
  lemma ActiveMasksMeanMatches(df: seq<Row>, c: Criteria)
    ensures ApplyAll(df, ActiveMasks(c)) == Filtered(df, c)
  {
    var ms := ActiveMasks(c);
    ApplyAllIsConjunction(df, ms);
    forall row | row in df ensures AllHold(ms, row) == Matches(c, row) {
      assert YearIn(c.years) in ms;
    }
    WhereExtensional(df, row => AllHold(ms, row), row => Matches(c, row));
  }

  /** Lines 75-84: `filtered_df` narrowed by successive guarded reassignments. */
  method ApplyFilters(df: seq<Row>, c: Criteria) returns (filtered: seq<Row>)
    ensures filtered == Filtered(df, c)
    ensures filtered == ApplyAll(df, ActiveMasks(c))
  {
    ghost var applied: seq<Mask> := [YearIn(c.years)];
    filtered := Select(df, YearIn(c.years));
    assert filtered == ApplyAll(df, applied);
    if c.institutions != [] {
      ApplyAllSnoc(df, applied, InstitutionIn(c.institutions));
      filtered := Select(filtered, InstitutionIn(c.institutions));
      applied := applied + [InstitutionIn(c.institutions)];
    }
    if c.countries != [] {
      ApplyAllSnoc(df, applied, CountryIn(c.countries));
      filtered := Select(filtered, CountryIn(c.countries));
      applied := applied + [CountryIn(c.countries)];
    }
    if c.query != "" {
      ApplyAllSnoc(df, applied, Search(c.query));
      filtered := Select(filtered, Search(c.query));
      applied := applied + [Search(c.query)];
    }
    assert applied == ActiveMasks(c);
    ActiveMasksMeanMatches(df, c);
  }

  // ------------------------------------------------------------ properties

  /** No row is invented or changed, and the table order is kept. */
  lemma FilteredIsSubsequence(df: seq<Row>, c: Criteria)
    ensures IsSubsequence(Filtered(df, c), df)
    ensures forall row :: row in Filtered(df, c) <==> row in df && Matches(c, row)
  {
    WhereIsSubsequence(df, row => Matches(c, row));
  }

  /** Filtering the result again with the same criteria changes nothing. */
  lemma FilteredIdempotent(df: seq<Row>, c: Criteria)
    ensures Filtered(Filtered(df, c), c) == Filtered(df, c)
  {
    WhereIdempotent(df, row => Matches(c, row));
  }

  /** The year filter has no empty-means-all guard: no year, no row. */
  lemma NoYearsNoRows(df: seq<Row>, c: Criteria)
    requires c.years == []
    ensures Filtered(df, c) == []
  {
    WhereKeepsNone(df, row => Matches(c, row));
  }

  /** With the default selection, every year on offer, the year mask keeps the whole table. */
  lemma DefaultYearsKeepAll(df: seq<Row>, options: seq<string>)
    requires AllYears(df) == Ok(options)
    ensures Select(df, YearIn(options)) == df
    ensures Filtered(df, Criteria(options, [], [], "")) == df
  {
    WhereKeepsAll(df, row => Holds(YearIn(options), row));
    WhereKeepsAll(df, row => Matches(Criteria(options, [], [], ""), row));
  }

  /** The unguarded mask of an empty list keeps nothing; the guard is what makes
      an empty institution or country selection mean "no filter". */
  lemma EmptyListMasksKeepNothing(rows: seq<Row>)
    ensures Select(rows, InstitutionIn([])) == []
    ensures Select(rows, CountryIn([])) == []
  {
    WhereKeepsNone(rows, row => Holds(InstitutionIn([]), row));
    WhereKeepsNone(rows, row => Holds(CountryIn([]), row));
  }

  /** The unguarded empty query would still drop rows whose title and leaders
      are both missing; the guard keeps them. */
  lemma EmptyQueryMaskDropsBlankRows(rows: seq<Row>)
    ensures forall row :: row in Select(rows, Search("")) <==>
      row in rows && (row.rec.title.Some? || row.rec.leaders.Some?)
  {
    forall row: Row ensures SearchHolds(row, "") <==> row.rec.title.Some? || row.rec.leaders.Some? {
      if row.rec.title.Some? {
        EmptyOccursEverywhere(Lower(row.rec.title.value));
      }
      if row.rec.leaders.Some? {
        EmptyOccursEverywhere(Lower(row.rec.leaders.value));
      }
    }
  }

  /** An empty institution selection drops the institution mask: the rows are
      those the other masks admit, whatever their institution, a missing one
      included. A non-empty selection narrows the result without that filter
      to the rows whose institution is selected. */
  lemma InstitutionFilter(df: seq<Row>, c: Criteria)
    ensures c.institutions == [] ==> Filtered(df, c) == Where(df, row =>
      && Holds(YearIn(c.years), row)
      && (c.countries == [] || Holds(CountryIn(c.countries), row))
      && (c.query == "" || Holds(Search(c.query), row)))
    ensures c.institutions != [] ==>
      Filtered(df, c) == Select(Filtered(df, c.(institutions := [])), InstitutionIn(c.institutions))
  {
    var c0 := c.(institutions := []);
    if c.institutions != [] {
      WhereFuse(df, row => Matches(c0, row), row => Holds(InstitutionIn(c.institutions), row), row => Matches(c, row));
    } else {
      WhereExtensional(df, row => Matches(c, row), row =>
        && Holds(YearIn(c.years), row)
        && (c.countries == [] || Holds(CountryIn(c.countries), row))
        && (c.query == "" || Holds(Search(c.query), row)));
    }
  }

  /** The same two laws for the country selection. */
  lemma CountryFilter(df: seq<Row>, c: Criteria)
    ensures c.countries == [] ==> Filtered(df, c) == Where(df, row =>
      && Holds(YearIn(c.years), row)
      && (c.institutions == [] || Holds(InstitutionIn(c.institutions), row))
      && (c.query == "" || Holds(Search(c.query), row)))
    ensures c.countries != [] ==>
      Filtered(df, c) == Select(Filtered(df, c.(countries := [])), CountryIn(c.countries))
  {
    var c0 := c.(countries := []);
    if c.countries != [] {
      WhereFuse(df, row => Matches(c0, row), row => Holds(CountryIn(c.countries), row), row => Matches(c, row));
    } else {
      WhereExtensional(df, row => Matches(c, row), row =>
        && Holds(YearIn(c.years), row)
        && (c.institutions == [] || Holds(InstitutionIn(c.institutions), row))
        && (c.query == "" || Holds(Search(c.query), row)));
    }
  }

  /** A non-empty query keeps exactly the rows whose lower-cased title or
      lower-cased leaders contain the lower-cased query; a missing field never
      matches. An empty query drops the keyword mask: the rows are those the
      other masks admit, a row with neither title nor leaders included. */
  lemma SearchFilter(df: seq<Row>, c: Criteria)
    ensures c.query == "" ==> Filtered(df, c) == Where(df, row =>
      && Holds(YearIn(c.years), row)
      && (c.institutions == [] || Holds(InstitutionIn(c.institutions), row))
      && (c.countries == [] || Holds(CountryIn(c.countries), row)))
    ensures c.query != "" ==>
      Filtered(df, c) == Select(Filtered(df, c.(query := "")), Search(c.query))
    ensures forall row: Row :: SearchHolds(row, c.query) <==>
      || (row.rec.title.Some? && exists i: nat :: OccursAt(Lower(c.query), Lower(row.rec.title.value), i))
      || (row.rec.leaders.Some? && exists i: nat :: OccursAt(Lower(c.query), Lower(row.rec.leaders.value), i))
  {
    var c0 := c.(query := "");
    if c.query != "" {
      WhereFuse(df, row => Matches(c0, row), row => Holds(Search(c.query), row), row => Matches(c, row));
    } else {
      WhereExtensional(df, row => Matches(c, row), row =>
        && Holds(YearIn(c.years), row)
        && (c.institutions == [] || Holds(InstitutionIn(c.institutions), row))
        && (c.countries == [] || Holds(CountryIn(c.countries), row)));
    }
    forall row: Row ensures SearchHolds(row, c.query) <==>
      || (row.rec.title.Some? && exists i: nat :: OccursAt(Lower(c.query), Lower(row.rec.title.value), i))
      || (row.rec.leaders.Some? && exists i: nat :: OccursAt(Lower(c.query), Lower(row.rec.leaders.value), i))
    {
      MatchesIgnoringCaseSpec(row.rec.title, c.query);
      MatchesIgnoringCaseSpec(row.rec.leaders, c.query);
    }
  }
}
