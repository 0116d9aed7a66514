# Causes-of-death dashboard: query model

This project models the table logic of a one-page dashboard over a dataset of yearly death counts by
country and cause. The model covers what the dashboard computes between loading the CSV and drawing
charts:

- duplicate-row removal at load;
- the disease header;
- the country picker's option list;
- the snapshot query (world sums or one country's row for a year), sorted by deaths and cut to a top five;
- the trend query (one disease across years, for the world or one country).

The table is a value: a header (`seq<string>`) and rows `Row(country, abbreviation, year, deaths)`.
`deaths` holds one natural number per disease column. The first three header names are the
country, abbreviation and year columns, and every later name is a disease. `Table.Valid()` says the
table is rectangular. Every operation is a pure function over sequences.

Modules:

- `Wrappers`: `Option` and `Result`.
- `Sequences`: duplicate-freedom, first occurrences, and first-occurrence de-duplication. This is
  `drop_duplicates()` and `unique()`.
- `StringOrder`: Python's `<` on `str` (code points, left to right, a proper prefix first) and
  insertion sort under it. This is `sorted()`.
- `DeathTable`: rows, the table, loading, the disease header, the country options, boolean-mask
  row selection (`Select`, described by the matching row positions `MatchIndices`) and column
  totals (`ColumnTotal`).
- `SnapshotQuery`: the snapshot frame, its sort by deaths and its top five.
- `TrendQuery`: the group-by-year world trend and the per-country trend.

Four facts about the source shape the model:

- Loading removes only rows that are equal in every column, so a country can keep several rows
  for one year. A country's snapshot therefore takes the first matching row (`CountrySnapshot`),
  and a country's trend lists every matching row (`CountryTrend`).
- `sort_values` runs with its default algorithm, which is not stable. `SortByDeaths` and `TopFive`
  promise only a rearrangement with non-increasing deaths.
- A country's trend keeps table order; nothing sorts it by year. `CountryTrend` states table order.
- A country without a row for the chosen year makes `iloc[0]` raise `IndexError`. The model
  returns `Failure(NotFound(year, country))` instead.

## Model

| member | source | states |
|---|---|---|
| `Sequences.Dedup` | interactive_dashboard.py:12 | the result has no repeated value; every input value is in it and every value in it is an input value; values appear in the order of their first occurrence in the input |
| `Sequences.DedupUnique` | interactive_dashboard.py:12 | any duplicate-free sequence with exactly the input's values, in first-occurrence order, is the de-duplication, so the three properties pin down `drop_duplicates` completely |
| `Sequences.DedupOfDistinct` | interactive_dashboard.py:12 | a sequence without repeats is left unchanged by de-duplication |
| `DeathTable.LoadData` | interactive_dashboard.py:9-13 | the loaded table keeps the header and shape; it has no two equal rows; every source row equals a loaded row and every loaded row is a source row; the rows kept are the first occurrences, in source order |
| `DeathTable.LoadDataIdempotent` | interactive_dashboard.py:9-13 | loading an already loaded table changes nothing |
| `DeathTable.Countries` | interactive_dashboard.py:21 | the country column has one entry per row, in row order, each that row's country |
| `DeathTable.ColumnTotal` | interactive_dashboard.py:46 | the sum of a disease column over a frame (also line 81): no row's count exceeds it, and it is 0 exactly when every row counts 0 |
| `DeathTable.DiseaseColumns` | interactive_dashboard.py:16 | the disease columns are exactly the header names after the first three, in header order; none when the header has three names or fewer |
| `StringOrder.LessTotal` | interactive_dashboard.py:21 | any two different strings are ordered by Python's string `<` |
| `StringOrder.LessTransitive` | interactive_dashboard.py:21 | Python's string `<` is transitive |
| `StringOrder.SortNames` | interactive_dashboard.py:21 | `sorted` returns a rearrangement of its input (same multiset) in non-decreasing string order |
| `StringOrder.SortDistinct` | interactive_dashboard.py:21 | sorting a list without repeats gives a strictly ascending list with the same values |
| `DeathTable.CountryOptions` | interactive_dashboard.py:21 | the options are "Global", then strictly ascending names; a name follows "Global" exactly when some row has it as its country |
| `DeathTable.MatchIndices` | interactive_dashboard.py:45 | the positions listed are strictly increasing and hold rows satisfying the mask, and every position whose row satisfies it is listed |
| `DeathTable.Select` | interactive_dashboard.py:45-48 | the masked frame is the rows at the matching positions, in table order; it is empty exactly when no row matches |
| `DeathTable.DiseaseIndex` | interactive_dashboard.py:81 | a name gets a position exactly when it is a disease column, and the disease at that position is the name |
| `SnapshotQuery.Entries` | interactive_dashboard.py:46-51 | the two-column (Disease, Deaths) frame is the pairing of the disease names with the counts, position by position; splitting it back into its Disease and Deaths columns gives the names and the counts again |
| `SnapshotQuery.SumRows` | interactive_dashboard.py:46 | adding up row vectors gives, at each position, the total of that column over the rows |
| `SnapshotQuery.GlobalSnapshot` | interactive_dashboard.py:44-46 | one entry per disease column, in header order; each count is the sum of that column over the rows of the chosen year; all counts are 0 when no row has that year |
| `SnapshotQuery.CountrySnapshot` | interactive_dashboard.py:47-49 | fails with NotFound exactly when no row has the chosen year and country; otherwise the entries are the disease names paired with the unmodified counts of the first such row |
| `SnapshotQuery.Snapshot` | interactive_dashboard.py:44-51 | fails only for a specific country without a row for the year ("Global" never fails); a result has one (Disease, Deaths) entry per disease column, in header order; for "Global" each count is the column total over the year's rows, for a country the entries are the first matching row's counts |
| `SnapshotQuery.InsertByDeaths` | interactive_dashboard.py:55 | inserting into a list sorted by deaths, largest first, keeps it sorted and adds exactly the new entry |
| `SnapshotQuery.SortByDeaths` | interactive_dashboard.py:55 | the chart frame is a rearrangement of the snapshot entries with deaths non-increasing |
| `SnapshotQuery.SplitByDeaths` | interactive_dashboard.py:74 | cutting a list sorted by deaths leaves no entry after the cut with more deaths than an entry before it |
| `SnapshotQuery.TopFive` | interactive_dashboard.py:74 | the top table has min(5, n) entries, sorted by deaths, drawn from the snapshot; no entry left out has more deaths than an entry kept |
| `SnapshotQuery.SnapshotView` | interactive_dashboard.py:44-74 | fails exactly when a specific country has no row for the year; otherwise the chart is a rearrangement of the snapshot sorted by deaths, and the table holds min(5, number of diseases) of the chart's entries, sorted by deaths, none with fewer deaths than an entry left out; the table is exactly the chart's first min(5, n) entries, the head of the same sort |
| `TrendQuery.ValueAtPoint` | interactive_dashboard.py:81 | in a series with ascending years, looking up a point's year finds that point's count |
| `TrendQuery.AddToGroup` | interactive_dashboard.py:81 | adding a row's count to its year's group keeps years strictly ascending, adds only that year, and raises only that year's value, by exactly the count |
| `TrendQuery.GroupByYear` | interactive_dashboard.py:81 | grouping gives strictly ascending years, exactly the table's years, and for every year the column total over that year's rows |
| `TrendQuery.GlobalTrend` | interactive_dashboard.py:80-81 | exactly one point per year present in the table, years strictly ascending, each value the sum of the disease column over that year's rows |
| `TrendQuery.CountryTrend` | interactive_dashboard.py:82-83 | the points are the country's rows in table order, each reduced to (year, disease count); an unknown country gives an empty series |
| `TrendQuery.Trend` | interactive_dashboard.py:78-83 | fails with UnknownDisease exactly when the name is not a disease column; "Global" gives ascending years covering exactly the table's years, each valued at that year's column total; a country gives, for each of its rows in table order, the row's year and disease count |

## Left out

- Reading `cause_of_deaths.csv` and the `st.cache_data` cache are file I/O and framework caching. The loaded table is an input value.
- The `Code` to `Abbreviation` rename changes only a header label. `LoadData` keeps the header as given.
- Streamlit widgets, titles, markdown and tables, and the Plotly charts and their layout, are rendering only.
- The year slider's bounds (1990 to 2019, default 2000) are widget settings. The queries accept any integer year.
- The view-mode radio (lines 41 and 77) is a two-way switch. It has no member of its own: `SnapshotView` and `Trend` are its two branches.
- Counts are unbounded naturals. pandas' `int64` overflow and missing values (NaN) are not modelled.
- `DeathTable.ColumnTotal`: a row too short for the column counts 0. A `Valid` table has no such row, so the totals match pandas on every table pandas can hold.
- `TrendQuery.Trend`: the disease picker offers only disease columns, so `UnknownDisease` cannot be reached from the page. It stands for pandas' `KeyError`.
