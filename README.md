# Projects for Peace dashboard: the record-filtering pipeline

The Projects for Peace dashboard is a single-page Streamlit app. It loads a CSV of funded
projects, lets the visitor narrow them in a sidebar, and shows the result three ways: as
metric cards, as points on a globe and as a ledger table. This project models the
computation behind those views, as written in `app.py`:

- **Loading** (`load_data`). Rows that lack a Latitude or a Longitude are dropped. Each kept
  row gains `Year_Str`, the text of its Year cell with every comma removed.
- **Sidebar options.** The sidebar offers the distinct `Year_Str` values, newest first by
  integer value. All of them are selected by default. It also offers the distinct
  institutions and the distinct present countries, each in ascending order.
- **Filter chain.** One table variable is narrowed step by step. The year filter always
  applies. The institution and country filters apply only when their selection is
  non-empty. The keyword filter applies only when the query is non-empty. It keeps a row
  when the Project Title or the Project Leader(s) contains the query, ignoring letter case.
  A missing cell never matches.
- **Display.** Three metric cards count the filtered rows, their distinct countries and
  their distinct institutions. The rows are then sorted by year for the globe's legend and
  the ledger.

Modules, one per file:

- `Wrappers`: Option and Result.
- `Seqs`: boolean-mask selection (`Where`), subsequences, `unique()`.
- `Sorting`: sorting by a total preorder.
- `Text`: comma stripping, ASCII lower-casing, substring search, Python's `int` and
  Python's string order.
- `Loader`: records, loaded rows and `load_data`.
- `YearOptions`: the year option list.
- `SidebarOptions`: the institution and country option lists.
- `Filters`: the criteria, the masks and the filter chain.
- `Ledger`: the metrics and the sort by year.
- `Dashboard`: one run of the script, plus a worked three-record example.

Points where the model follows details of the code:

- The keyword search covers only title and leaders.
- The year filter has no empty-means-all guard. An empty year selection shows no rows
  (`NoYearsNoRows`).
- Line 64 sorts the institution column without `dropna()`, unlike line 68. A column that
  holds both a missing and a present institution makes Python compare NaN with a text and
  raise TypeError. The run then stops there (`Dashboard.Run`).
- Line 99 sorts by the raw Year column. The comment at lines 97-98 calls that sort
  numerical, which holds only when pandas reads Year as numbers. See Findings.

## Model

| member | source | states |
|---|---|---|
| `Seqs.Where` | app.py:75-84 | a mask selection keeps exactly the elements its mask admits, never more than the input |
| `Seqs.WhereIsSubsequence` | app.py:75-84 | a selection is a subsequence of its input: relative order is kept and nothing is invented |
| `Seqs.WhereFuse` | app.py:75-84 | selecting by one mask and then another equals one selection by their conjunction |
| `Seqs.WhereCommute` | app.py:75-84 | two successive selections can be applied in either order |
| `Seqs.WhereIdempotent` | app.py:75-84 | selecting again with the same mask changes nothing |
| `Seqs.WhereKeepsAll` | app.py:75 | a mask true on every element keeps the sequence unchanged |
| `Seqs.WhereKeepsNone` | app.py:75 | a mask false on every element keeps nothing |
| `Seqs.WherePartition` | app.py:48 | the kept and the rejected elements together account for every element |
| `Seqs.Unique` | app.py:60 | `unique()` gives a duplicate-free sequence with exactly the input's values |
| `Seqs.PermutationKeepsDistinct` | app.py:60 | reordering a duplicate-free list keeps it duplicate-free |
| `Sorting.SortWith` | app.py:60 | sorting yields a permutation of the input that is ordered by the comparison |
| `Text.StripCommas` | app.py:50 | the result has no comma and keeps every other character as often as the input has it |
| `Text.StripCommasFixpoint` | app.py:50 | stripping leaves a text unchanged exactly when it has no comma |
| `Text.StripCommasIdempotent` | app.py:50 | stripping twice is stripping once |
| `Text.StripCommasAppend` | app.py:50 | stripping distributes over concatenation |
| `Text.ThousandsSeparatorRemoved` | app.py:50 | "2,020" and "2020" both normalise to "2020" |
| `Text.LowerChar` | app.py:82-83 | the lower-cased character is never an upper-case ASCII letter; upper-case letters move down by 32 and every other character is kept |
| `Text.Lower` | app.py:82-83 | `case=False` lower-cases a text character by character and keeps its length |
| `Text.MatchesIgnoringCase` | app.py:82-83 | with `na=False` a missing cell never matches; a present cell matches exactly when its lower-cased text has the lower-cased query at some position |
| `Text.Contains` | app.py:82-83 | the substring test is true exactly when the query occurs at some position |
| `Text.MatchesIgnoringCaseSpec` | app.py:82-83 | lower-casing the query or the cell first changes nothing: the search ignores letter case on both sides |
| `Text.ParseInt` | app.py:60 | `int(y)` succeeds exactly on an optional sign followed by digits; it gives the digits' decimal value, negated after '-' |
| `Text.ParseStrippedYear` | app.py:50-60 | "2,020", once stripped, parses as the year 2020 |
| `Text.LexLeTotalPreorder` | app.py:99 | Python's code-point order on texts is total and transitive |
| `Loader.HasCoordinates` | app.py:48 | `dropna(subset=['Latitude', 'Longitude'])` keeps a row exactly when no cell of that subset is missing |
| `Loader.LoadData` | app.py:45-51 | `load_data` keeps exactly the rows with both coordinates, in file order, and gives each a comma-free `Year_Str` derived from its Year |
| `Loader.LoadedSpec` | app.py:48-50 | every loaded row has both coordinates and is a file row, unchanged and in order; a file row survives exactly when both coordinates are present; `Year_Str` has no comma |
| `Loader.LoadedCount` | app.py:48 | loaded rows plus rows missing a coordinate equal the rows of the file |
| `YearOptions.YearNumber` | app.py:60 | the sort key is the value `int` gives the year text whenever `int` succeeds |
| `YearOptions.NotOlder` | app.py:60 | `key=int, reverse=True`: a year may precede another exactly when its integer value is not smaller |
| `YearOptions.FirstNonInteger` | app.py:60 | finds a year text `int` rejects exactly when one exists |
| `YearOptions.NewestFirst` | app.py:60 | `sorted(key=int, reverse=True)` is a permutation of its input, keeps it duplicate-free, and orders it by non-increasing integer value |
| `YearOptions.AllYears` | app.py:60 | the options are the distinct `Year_Str` values, duplicate-free, non-increasing by `int`; when some value is not an integer the result is that value as an error, as `int` raises |
| `YearOptions.StrictlyNewestFirst` | app.py:60 | when different year texts denote different integers, the options are strictly descending |
| `YearOptions.SameYearTwoTexts` | app.py:60 | "2020" and "02020" denote the same year, so strictness needs that condition |
| `SidebarOptions.Column` | app.py:64-68 | a column holds one cell per row, each the row's value, a missing cell as None |
| `SidebarOptions.DropMissing` | app.py:68 | `dropna()` keeps exactly the present values |
| `SidebarOptions.SortCells` | app.py:64 | sorting distinct cells that do not mix missing and present values gives the same cells, duplicate-free, as texts in ascending code-point order |
| `SidebarOptions.InstitutionOptions` | app.py:64 | `sorted(df['Institution'].unique())` fails exactly when the column holds both a missing and a present institution; otherwise it gives exactly the column's distinct cells, duplicate-free and ascending |
| `SidebarOptions.CountryOptions` | app.py:68 | `sorted(df['Project Country'].dropna().unique())` gives exactly the distinct present countries, duplicate-free and ascending |
| `SidebarOptions.CountryOptionsCount` | app.py:68 | there are as many country options as "Nations Impacted" counts over the whole table |
| `Filters.IsIn` | app.py:76-79 | `isin` holds exactly when the cell is present and equals some selected value; a missing cell is in no selection |
| `Filters.ActiveMasks` | app.py:75-84 | the chain always applies the year mask first, and applies the institution, country and keyword masks exactly when their selection or query is non-empty |
| `Filters.ApplyFilters` | app.py:75-84 | the guarded reassignments of `filtered_df` give the rows matching all criteria, which is the active masks applied in turn |
| `Filters.ApplyAllIsConjunction` | app.py:75-84 | narrowing by masks one after another keeps exactly the rows that every mask admits |
| `Filters.ApplyAllOrderIrrelevant` | app.py:75-84 | applying the same masks in any order gives the same rows |
| `Filters.ActiveMasksMeanMatches` | app.py:75-84 | the sequential chain equals the single conjunction of the criteria |
| `Filters.FilteredIsSubsequence` | app.py:75-84 | the filtered rows are a subsequence of the loaded table, and a row is in them exactly when it is in the table and matches |
| `Filters.FilteredIdempotent` | app.py:75-84 | filtering the result again with the same criteria changes nothing |
| `Filters.NoYearsNoRows` | app.py:75 | an empty year selection leaves no rows, because the year filter has no guard |
| `Filters.DefaultYearsKeepAll` | app.py:60-75 | with every offered year selected (the default), the year mask keeps every loaded row, and with nothing else chosen the whole table is shown |
| `Filters.EmptyListMasksKeepNothing` | app.py:76-79 | an institution or country mask over an empty list would keep nothing, so the guards are what make an empty selection mean no filter |
| `Filters.EmptyQueryMaskDropsBlankRows` | app.py:80-84 | an unguarded empty query would still drop rows whose title and leaders are both missing |
| `Filters.InstitutionFilter` | app.py:76-77 | when the institution selection is empty, the rows are those the year, country and keyword masks admit, so a row's institution, even a missing one, no longer matters; a non-empty selection narrows the result without that filter to rows whose institution is selected |
| `Filters.CountryFilter` | app.py:78-79 | the same two laws for the country selection |
| `Filters.SearchFilter` | app.py:80-84 | an empty query leaves only the year, institution and country masks, so rows with neither title nor leaders are kept; a non-empty query narrows to rows whose lower-cased title or leaders contain the lower-cased query; a missing field never matches |
| `Ledger.PresentValues` | app.py:93-94 | the distinct present values of a column are exactly the values some row holds, never more than the rows |
| `Ledger.ComputeMetrics` | app.py:92-94 | Total Projects is the row count; the nation and partner counts never exceed it and are zero exactly when no row has a country or an institution |
| `Ledger.NationsAreDistinctCountries` | app.py:93-94 | the nation and partner counts are the sizes of the sets of present countries and institutions |
| `Ledger.MetricsIgnoreOrder` | app.py:92-99 | the metrics depend only on which rows there are, so counting before the sort equals counting the sorted rows |
| `Ledger.SortByYear` | app.py:99 | the sorted rows are a permutation of the filtered rows in non-decreasing integer year |
| `Ledger.SortByRawYear` | app.py:99 | as written, the sort is a permutation ordered by the raw Year text, code point by code point |
| `Ledger.RawYearSortIsNotChronological` | app.py:99 | rows with Year "2019" and "2,020" come out 2020 first under the raw-text sort |
| `Ledger.YearSortIsChronological` | app.py:99 | the same two rows come out 2019 first under the sort by year value |
| `Dashboard.Run` | app.py:45-99 | one run stops exactly when a loaded year is not an integer (line 60, checked first) or the institution column mixes missing and present cells (line 64); otherwise it offers the year, institution and country options, the ledger is a permutation of the filtered rows in non-decreasing integer year, and the metrics are those of the filtered and of the sorted rows; the default sidebar shows every loaded row |
| `Dashboard.ExampleLoad` | app.py:48-50 | of three records, loading drops the one with no latitude |
| `Dashboard.ExampleYearFilter` | app.py:75 | selecting the year 2020 keeps exactly the 2020 row that has coordinates |
| `Dashboard.ExampleSearch` | app.py:80-84 | the query "JANE" keeps exactly the row led by "Jane Doe" |
| `Dashboard.ExampleUnorderableInstitutions` | app.py:64 | a table with institution "A" in one row and none in the other cannot have its institution options sorted |

## Findings

| source | as written | input that shows it | evidently intended | confidence | as-written member | corrected member |
|---|---|---|---|---|---|---|
| app.py:99 | `sort_values("Year")` sorts by the raw Year column (modelled by `Ledger.SortByRawYear`). Line 50 strips commas from that column, so it can hold text. A text column is sorted code point by code point. | Year cells "2019" and "2,020": ',' sorts before '0', so 2020 comes before 2019 | chronological order by the year's integer value, which the comment at lines 97-98 promises | low: not executed; happens only when the file mixes comma and plain year forms | `Ledger.RawYearSortIsNotChronological` | `Ledger.SortByYear` |

`Dashboard.Run` uses the corrected sort.

## Left out

- Reading the CSV file and `@st.cache_data` (app.py:44-46): file I/O and framework caching. The file's rows are the input `seq<Record>`. A missing or malformed file is not modelled.
- Page setup, CSS, sidebar widgets, headers, `st.info`, `st.dataframe` and the column projection for the ledger (app.py:6-41, 56-72, 87-91, 163-176): presentation only.
- Streamlit's rule that a selection must come from the offered options (app.py:61, 65, 69) is not modelled. A selection here is any list of texts.
- Dashboard.Run: sorts the ledger by the integer year (`Ledger.SortByYear`). That is line 99's order when pandas reads Year as numbers. When Year is read as text, line 99 sorts by the raw text instead (`Ledger.SortByRawYear`), and the two orders differ (see Findings).
- Dashboard.Run: a missing institution appears among the options as None. Python shows it as NaN. An institution column with only missing cells gives the single option None, as Python gives `[nan]`.
- The Plotly `scatter_geo` call and its styling (app.py:101-165): a foreign charting library.
- Latitude and Longitude values: only whether a coordinate is present is modelled. Floating point is out of scope.
- pandas type inference: a Year cell is given by its text, the output of `astype(str)`. A numeric column read as `2020.0` is therefore not modelled.
- Text.ParseInt: Python's `int` also accepts surrounding whitespace, `_` between digits and non-ASCII digits. The model accepts only an optional sign followed by ASCII digits.
- Text.Contains: pandas `str.contains` treats the query as a regular expression by default. The model is a literal substring test, so queries with regex metacharacters are out of scope.
- Text.Lower: ASCII lower-casing only. Unicode case folding is not modelled.
- Text cells that hold non-text values, such as numbers, are out of scope. For those, `str.contains` yields NaN and `na=False` turns that into no match.
- Ledger.SortByYear: gives one sorted permutation, with ties in insertion order. pandas' default quicksort is not stable and may order ties differently. Only sortedness and permutation are claimed.
- YearOptions.AllYears: promises a non-increasing order, not a strictly descending one. Two different texts can denote the same integer ("2020" and "02020"). Strict descent is proved only under that condition, in `StrictlyNewestFirst`.
- The country-to-region lookup some variants carry is not in this `app.py` and is not part of this model.
