/** The institution and country option lists of the sidebar (app.py lines 64
    and 68). The country list drops missing cells before sorting; the
    institution list does not, so Python sorts the missing cell (NaN, a float)
    together with the texts, and comparing a float with a text raises
    TypeError. */
module SidebarOptions {
  import opened Wrappers
  import opened Seqs
  import opened Sorting
  import opened Text
  import opened Loader
  import opened Ledger

  /** One column of the loaded table, a missing cell as None. */
  function Column(df: seq<Row>, column: Record -> Option<string>): (cells: seq<Option<string>>)
    ensures |cells| == |df|
    ensures forall i :: 0 <= i < |df| ==> cells[i] == column(df[i].rec)
    ensures forall x :: x in cells <==> exists row :: row in df && column(row.rec) == x
  {
    var cells := seq(|df|, i requires 0 <= i < |df| => column(df[i].rec));
    assert forall row :: row in df ==> column(row.rec) in cells by {
      forall row | row in df ensures column(row.rec) in cells {
        var i :| 0 <= i < |df| && df[i] == row;
        assert cells[i] == column(row.rec);
      }
    }
    cells
  }

  /** `Series.dropna()`: the present values, in order. */
  function DropMissing(cells: seq<Option<string>>): (vs: seq<string>)
    ensures |vs| <= |cells|
    ensures forall v :: v in vs <==> Some(v) in cells
  {
    if cells == [] then []
    else
      var rest := DropMissing(cells[1..]);
      assert forall x :: x in cells <==> x == cells[0] || x in cells[1..];
      match cells[0]
      case Some(v) => [v] + rest
      case None => rest
  }

  /** The column holds a missing and a present institution. */
  predicate MixedInstitutions(df: seq<Row>) {
    && (exists row :: row in df && row.rec.institution.None?)
    && (exists row :: row in df && row.rec.institution.Some?)
  }

  /** The order `sorted` uses on institution cells: texts by code point. A
      missing cell comes first only to make the order total; a list holding
      both kinds is never sorted. */
  predicate CellLe(a: Option<string>, b: Option<string>) {
    match a
    case None => true
    case Some(x) => b.Some? && LexLe(x, b.value)
  }

  lemma CellLeTotalPreorder()
    ensures TotalPreorder(CellLe)
  {
    LexLeTotalPreorder();
  }

  /** Every cell is a text, each before the next by code point. */
  predicate AscendingTexts(cells: seq<Option<string>>) {
    forall i, j :: 0 <= i < j < |cells| ==>
      cells[i].Some? && cells[j].Some? && LexLe(cells[i].value, cells[j].value)
  }

  /** `sorted(cells)` for distinct cells that do not mix a missing and a
      present value: ascending, and all texts when there are two or more. */
  function SortCells(cells: seq<Option<string>>): (r: seq<Option<string>>)
    requires Distinct(cells)
    requires !(None in cells && exists x :: x in cells && x.Some?)
    ensures forall x :: x in r <==> x in cells
    ensures Distinct(r)
    ensures AscendingTexts(r)
  {
    CellLeTotalPreorder();
    var sorted := SortWith(cells, CellLe);
    PermutationMembers(cells, sorted);
    PermutationKeepsDistinct(cells, sorted);
    forall i, j | 0 <= i < j < |sorted|
      ensures sorted[i].Some? && sorted[j].Some? && LexLe(sorted[i].value, sorted[j].value)
    {
      assert sorted[i] in cells && sorted[j] in cells && sorted[i] != sorted[j];
      assert sorted[i].Some?;
      assert CellLe(sorted[i], sorted[j]);
    }
    assert AscendingTexts(sorted);
    sorted
  }

  /** `sorted(df['Institution'].unique())`: None where Python raises
      TypeError, which is exactly when the distinct cells mix a missing and a
      present institution. Otherwise the distinct cells in ascending order;
      when there are two or more, every option is a text. */
  function InstitutionOptions(df: seq<Row>): (r: Option<seq<Option<string>>>)
    ensures r.None? <==> MixedInstitutions(df)
    ensures r.Some? ==> forall x :: x in r.value <==> exists row :: row in df && row.rec.institution == x
    ensures r.Some? ==> Distinct(r.value)
    ensures r.Some? ==> AscendingTexts(r.value)
  {
    var column := Column(df, InstitutionOf);
    var cells := Unique(column);
    assert forall x :: x in cells <==> exists row :: row in df && row.rec.institution == x;
    if None in cells && exists x :: x in cells && x.Some? then
      None
    else
      Some(SortCells(cells))
  }

  /** `sorted(df['Project Country'].dropna().unique())`: the distinct present
      countries in ascending order. It never fails. */
  function CountryOptions(df: seq<Row>): (r: seq<string>)
    ensures forall v :: v in r <==> exists row :: row in df && row.rec.country == Some(v)
    ensures Distinct(r)
    ensures forall i, j :: 0 <= i < j < |r| ==> LexLe(r[i], r[j])
  {
    var vs := Unique(DropMissing(Column(df, CountryOf)));
    LexLeTotalPreorder();
    assert TotalPreorder(LexLe);
    var sorted := SortWith(vs, LexLe);
    PermutationMembers(vs, sorted);
    PermutationKeepsDistinct(vs, sorted);
    assert forall i, j :: 0 <= i < j < |sorted| ==> LexLe(sorted[i], sorted[j]);
    sorted
  }

  /** A duplicate-free sequence has as many members as elements. */
  lemma {:induction false} DistinctCardinality<T(!new)>(xs: seq<T>)
    requires Distinct(xs)
    ensures |set x | x in xs| == |xs|
  {
    if xs != [] {
      var rest := xs[1..];
      assert Distinct(rest) by {
        forall i, j | 0 <= i < j < |rest| ensures rest[i] != rest[j] {
          assert rest[i] == xs[i + 1] && rest[j] == xs[j + 1];
        }
      }
      DistinctCardinality(rest);
      assert xs[0] !in rest by {
        forall k | 0 <= k < |rest| ensures rest[k] != xs[0] {
          assert rest[k] == xs[k + 1];
        }
      }
      assert (set x | x in xs) == (set x | x in rest) + {xs[0]};
    }
  }

  /** There are as many country options as "Nations Impacted" counts over the
      whole table. */
  lemma CountryOptionsCount(df: seq<Row>)
    ensures |CountryOptions(df)| == ComputeMetrics(df).nationsImpacted
  {
    var r := CountryOptions(df);
    DistinctCardinality(r);
    assert (set x | x in r) == PresentValues(df, CountryOf);
  }
}
