/** Loading the dataset (app.py, `load_data`): rows without both coordinates
    are dropped, then each row gains `Year_Str`, the year's text with every
    comma removed. Reading the CSV file is outside the model: its rows are the
    input. */
module Loader {
  import opened Wrappers
  import opened Seqs
  import opened Text

  /** One row of the CSV file. `year` is the Year cell as text; the two
      coordinates are kept only as present or missing. */
  datatype Record = Record(
    year: string,
    institution: Option<string>,
    title: Option<string>,
    country: Option<string>,
    leaders: Option<string>,
    latitude: Option<string>,
    longitude: Option<string>)

  /** A loaded row: the record together with its derived `Year_Str` column. */
  datatype Row = Row(rec: Record, yearStr: string)

  /** `dropna(subset=['Latitude', 'Longitude'])` keeps a row exactly when no
      cell of the subset is missing. */
  function HasCoordinates(r: Record): (b: bool)
    ensures b <==> None !in [r.latitude, r.longitude]
  {
    r.latitude.Some? && r.longitude.Some?
  }

  /** The records underlying a table of loaded rows. */
  function Records(rows: seq<Row>): (rs: seq<Record>)
    ensures |rs| == |rows|
  {
    seq(|rows|, i requires 0 <= i < |rows| => rows[i].rec)
  }

  /** The derived column, added to every row. */
  function WithYearStr(records: seq<Record>): seq<Row> {
    seq(|records|, i requires 0 <= i < |records| => Row(records[i], StripCommas(records[i].year)))
  }

  /** The loaded table as a function of the file's rows. */
  function Loaded(csv: seq<Record>): seq<Row> {
    WithYearStr(Where(csv, HasCoordinates))
  }

  /** `load_data`: drop the rows lacking a coordinate, then add `Year_Str`. */
  method LoadData(csv: seq<Record>) returns (df: seq<Row>)
    ensures df == Loaded(csv)
    ensures Records(df) == Where(csv, HasCoordinates)
    ensures forall i :: 0 <= i < |df| ==> df[i].yearStr == StripCommas(df[i].rec.year)
  {
    var kept := Where(csv, HasCoordinates);
    df := WithYearStr(kept);
    assert Records(df) == kept;
  }

  /** What loading keeps: exactly the rows with both coordinates, in their
      original order, each unchanged and with a comma-free `Year_Str`. */
  lemma LoadedSpec(csv: seq<Record>)
    ensures Records(Loaded(csv)) == Where(csv, HasCoordinates)
    ensures IsSubsequence(Records(Loaded(csv)), csv)
    ensures forall r :: r in Records(Loaded(csv)) <==> r in csv && HasCoordinates(r)
    ensures forall row :: row in Loaded(csv) ==>
      && row.rec in csv
      && HasCoordinates(row.rec)
      && row.yearStr == StripCommas(row.rec.year)
      && ',' !in row.yearStr
  {
    var kept := Where(csv, HasCoordinates);
    assert Records(Loaded(csv)) == kept;
    WhereIsSubsequence(csv, HasCoordinates);
    forall row | row in Loaded(csv)
      ensures row.rec in kept && row.yearStr == StripCommas(row.rec.year)
    {
      var i :| 0 <= i < |Loaded(csv)| && Loaded(csv)[i] == row;
      assert row.rec == kept[i];
    }
  }

  /** A row is dropped exactly when one of its coordinates is missing: the kept
      and the dropped rows together account for the whole file. */
  lemma {:induction false} LoadedCount(csv: seq<Record>)
    ensures |Loaded(csv)| + |Where(csv, r => !HasCoordinates(r))| == |csv|
  {
    WherePartition(csv, HasCoordinates, r => !HasCoordinates(r));
  }
}
