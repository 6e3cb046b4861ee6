/** The year option list of the sidebar (app.py line 60): the distinct
    `Year_Str` values sorted with `key=int` in reverse, that is newest first.
    Python raises ValueError when some value is not an integer numeral; the
    model returns that value as an error. */
module YearOptions {
  import opened Wrappers
  import opened Seqs
  import opened Sorting
  import opened Text
  import opened Loader

  /** The sort key `int(y)`. Only consulted once every year has parsed. */
  function YearNumber(y: string): (n: int)
    ensures ParseInt(y).Some? ==> ParseInt(y) == Some(n)
  {
    match ParseInt(y)
    case Some(n) => n
    case None => 0
  }

  /** The order of `sorted(..., key=int, reverse=True)`: `a` may precede `b`. */
  function NotOlder(a: string, b: string): (r: bool)
    ensures ParseInt(a).Some? && ParseInt(b).Some? ==> (r <==> ParseInt(a).value >= ParseInt(b).value)
  {
    YearNumber(a) >= YearNumber(b)
  }

  lemma NotOlderTotalPreorder()
    ensures TotalPreorder(NotOlder)
  {
  }

  /** The `Year_Str` column. */
  function YearColumn(df: seq<Row>): (ys: seq<string>)
    ensures |ys| == |df|
    ensures forall y :: y in ys <==> exists row :: row in df && row.yearStr == y
  {
    var ys := seq(|df|, i requires 0 <= i < |df| => df[i].yearStr);
    assert forall row :: row in df ==> row.yearStr in ys by {
      forall row | row in df ensures row.yearStr in ys {
        var i :| 0 <= i < |df| && df[i] == row;
        assert ys[i] == row.yearStr;
      }
    }
    ys
  }

  /** The first value for which `int` fails, if any. */
  function FirstNonInteger(ys: seq<string>): (r: Option<string>)
    ensures r.None? <==> forall y :: y in ys ==> ParseInt(y).Some?
    ensures r.Some? ==> r.value in ys && ParseInt(r.value).None?
  {
    if ys == [] then None
    else if ParseInt(ys[0]).None? then Some(ys[0])
    else
      assert forall y :: y in ys ==> y == ys[0] || y in ys[1..];
      FirstNonInteger(ys[1..])
  }

  /** `sorted(years, key=int, reverse=True)` once every `int` succeeds. */
  function NewestFirst(years: seq<string>): (r: seq<string>)
    requires forall y :: y in years ==> ParseInt(y).Some?
    ensures multiset(r) == multiset(years)
    ensures forall y :: y in r <==> y in years
    ensures Distinct(years) ==> Distinct(r)
    ensures forall i, j :: 0 <= i < j < |r| ==> ParseInt(r[i]).value >= ParseInt(r[j]).value
  {
    NotOlderTotalPreorder();
    var sorted := SortWith(years, NotOlder);
    PermutationMembers(years, sorted);
    assert Distinct(years) ==> Distinct(sorted) by {
      if Distinct(years) {
        PermutationKeepsDistinct(years, sorted);
      }
    }
    assert forall i, j :: 0 <= i < j < |sorted| ==> NotOlder(sorted[i], sorted[j]);
    sorted
  }

  /** `sorted(df['Year_Str'].unique(), key=int, reverse=True)`. */
  function AllYears(df: seq<Row>): (r: Result<seq<string>, string>)
    ensures r.Ok? <==> forall row :: row in df ==> ParseInt(row.yearStr).Some?
    ensures r.Err? ==> ParseInt(r.error).None? && exists row :: row in df && row.yearStr == r.error
    ensures r.Ok? ==> forall y :: y in r.value <==> exists row :: row in df && row.yearStr == y
    ensures r.Ok? ==> Distinct(r.value)
    ensures r.Ok? ==> forall y :: y in r.value ==> ParseInt(y).Some?
    ensures r.Ok? ==> forall i, j :: 0 <= i < j < |r.value| ==>
      ParseInt(r.value[i]).value >= ParseInt(r.value[j]).value
  {
    var years := Unique(YearColumn(df));
    match FirstNonInteger(years)
    case Some(bad) => Err(bad)
    case None => Ok(NewestFirst(years))
  }

  /** When no two different year texts denote the same integer (no "2020"
      beside "02020"), the option list is strictly newest first. */
  lemma StrictlyNewestFirst(df: seq<Row>, options: seq<string>)
    requires AllYears(df) == Ok(options)
    requires forall a, b :: a in df && b in df && a.yearStr != b.yearStr ==>
      ParseInt(a.yearStr) != ParseInt(b.yearStr)
    ensures forall i, j :: 0 <= i < j < |options| ==>
      ParseInt(options[i]).value > ParseInt(options[j]).value
  {
    assert Distinct(options);
    assert forall y :: y in options <==> exists row :: row in df && row.yearStr == y;
    assert forall i, j :: 0 <= i < j < |options| ==>
      ParseInt(options[i]).value >= ParseInt(options[j]).value;
    forall i, j | 0 <= i < j < |options|
      ensures ParseInt(options[i]).value > ParseInt(options[j]).value
    {
      assert options[i] in options && options[j] in options;
      var a :| a in df && a.yearStr == options[i];
      var b :| b in df && b.yearStr == options[j];
      assert a.yearStr != b.yearStr;
      assert ParseInt(a.yearStr) != ParseInt(b.yearStr);
    }
  }

  /** Distinct texts with the same value are both offered, so the list is then
      not strict: "2020" and "02020" are two options for one year. */
  lemma SameYearTwoTexts()
    ensures ParseInt("2020") == ParseInt("02020") == Some(2020)
  {
    assert "2020"[..3] == "202" && "202"[..2] == "20" && "20"[..1] == "2" && "2"[..0] == "";
    assert "02020"[..4] == "0202" && "0202"[..3] == "020" && "020"[..2] == "02" && "02"[..1] == "0" && "0"[..0] == "";
    assert DigitsValue("2020") == 2020;
    assert DigitsValue("02020") == 2020;
  }
}
