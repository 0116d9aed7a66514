/** The loaded death-count table and the row-level operations the queries share:
    loading (duplicate removal), the disease header, the country picker and row filters. */
module DeathTable {
  import opened Wrappers
  import opened Sequences
  import opened StringOrder

  /** One line of the dataset: the deaths in one country and year, one count per disease column. */
  datatype Row = Row(country: string, abbreviation: string, year: int, deaths: seq<nat>)

  /** The table as loaded: the header names and the rows. The first three header names label the
      country, abbreviation and year fields; every later name labels one disease column. */
  datatype Table = Table(columns: seq<string>, rows: seq<Row>) {
    /** A rectangular table: the three key columns exist and every row holds one count per
        disease column. */
    predicate Valid() {
      |columns| >= 3 && Width(rows, |columns| - 3)
    }
  }

  /** Every row holds exactly `n` death counts. */
  predicate Width(rows: seq<Row>, n: nat) {
    forall i :: 0 <= i < |rows| ==> |rows[i].deaths| == n
  }

  /** Why a query produced no result. */
  datatype QueryError =
    | NotFound(year: int, country: string)   // no row for this country and year
    | UnknownDisease(disease: string)         // the name is not a disease column

  /** The name the country picker uses for the all-countries aggregate. */
  const Global: string := "Global"

  /** The disease columns: every header name after the first three, in header order
      (a header of three names or fewer has none). */
  function DiseaseColumns(columns: seq<string>): (r: seq<string>)
    ensures |columns| <= 3 ==> r == []
    ensures |columns| > 3 ==> columns == columns[..3] + r
  {
    if |columns| <= 3 then [] else columns[3..]
  }

  /** Loading: the table with its exact-duplicate rows removed, first occurrences kept in order.
      No row repeats, every loaded row is a source row, every source row is still present, and
      the survivors keep the order in which they first appear. */
  function LoadData(raw: Table): (t: Table)
    ensures t.columns == raw.columns
    ensures raw.Valid() ==> t.Valid()
    ensures NoDuplicates(t.rows)
    ensures forall i :: 0 <= i < |t.rows| ==> t.rows[i] in raw.rows
    ensures forall i :: 0 <= i < |raw.rows| ==> raw.rows[i] in t.rows
    ensures forall i, j :: 0 <= i < j < |t.rows| ==>
              FirstIndex(raw.rows, t.rows[i]) < FirstIndex(raw.rows, t.rows[j])
  {
    var kept := Dedup(raw.rows);
    assert raw.Valid() ==> Width(kept, |raw.columns| - 3) by {
      if raw.Valid() {
        forall i | 0 <= i < |kept|
          ensures |kept[i].deaths| == |raw.columns| - 3
        {
          var q :| 0 <= q < |raw.rows| && raw.rows[q] == kept[i];
        }
      }
    }
    Table(raw.columns, kept)
  }

  /** Loading an already loaded table changes nothing. */
  lemma LoadDataIdempotent(raw: Table)
    ensures LoadData(LoadData(raw)) == LoadData(raw)
  {
    DedupOfDistinct(Dedup(raw.rows));
  }

  /** The country column, in row order. */
  function Countries(rows: seq<Row>): (r: seq<string>)
    ensures |r| == |rows|
    ensures forall i :: 0 <= i < |rows| ==> r[i] == rows[i].country
  {
    if |rows| == 0 then [] else Countries(rows[..|rows| - 1]) + [rows[|rows| - 1].country]
  }

  /** The country picker's options: "Global", then every country of the table once, in
      ascending string order. */
  function CountryOptions(rows: seq<Row>): (r: seq<string>)
    ensures |r| >= 1 && r[0] == Global
    ensures StrictlyAscending(r[1..])
    ensures forall c :: c in r[1..] <==> exists i :: 0 <= i < |rows| && rows[i].country == c
  {
    var names := Dedup(Countries(rows));
    var sorted := SortNames(names);
    SortDistinct(names);
    forall c | c in sorted
      ensures exists i :: 0 <= i < |rows| && rows[i].country == c
    {
      var q :| 0 <= q < |names| && names[q] == c;
      var i :| 0 <= i < |rows| && Countries(rows)[i] == c;
    }
    forall i | 0 <= i < |rows|
      ensures rows[i].country in sorted
    {
      assert Countries(rows)[i] == rows[i].country;
    }
    var r := [Global] + sorted;
    assert r[1..] == sorted;
    r
  }

  /** A row filter: one boolean mask the source builds over the table. */
  datatype Criterion =
    | InYear(year: int)                    // Year == year
    | OfCountry(country: string)           // Country/Territory == country
    | At(year: int, country: string)       // both

  predicate Matches(row: Row, c: Criterion)
  {
    match c
    case InYear(y) => row.year == y
    case OfCountry(n) => row.country == n
    case At(y, n) => row.year == y && row.country == n
  }

  /** The positions of the rows that satisfy `c`, in increasing order: the reference description
      of a boolean-mask selection. */
  function MatchIndices(rows: seq<Row>, c: Criterion): (idx: seq<nat>)
    ensures forall j :: 0 <= j < |idx| ==> idx[j] < |rows| && Matches(rows[idx[j]], c)
    ensures forall j1, j2 :: 0 <= j1 < j2 < |idx| ==> idx[j1] < idx[j2]
    ensures forall i :: 0 <= i < |rows| && Matches(rows[i], c) ==> i in idx
  {
    if |rows| == 0 then []
    else
      var prefix := rows[..|rows| - 1];
      var before := MatchIndices(prefix, c);
      assert forall i :: 0 <= i < |prefix| ==> prefix[i] == rows[i];
      if Matches(rows[|rows| - 1], c) then before + [|rows| - 1] else before
  }

  /** `r` is the rows of `rows` at the positions `MatchIndices(rows, c)`, in that order. */
  predicate RowsAtMatches(rows: seq<Row>, c: Criterion, r: seq<Row>)
  {
    var idx := MatchIndices(rows, c);
    |r| == |idx| && forall j :: 0 <= j < |r| ==> r[j] == rows[idx[j]]
  }

  /** Extending the table by one row extends the picked rows by that row exactly when it matches. */
  lemma RowsAtMatchesAppend(rows: seq<Row>, c: Criterion, before: seq<Row>)
    requires |rows| > 0
    requires RowsAtMatches(rows[..|rows| - 1], c, before)
    ensures RowsAtMatches(rows, c, if Matches(rows[|rows| - 1], c) then before + [rows[|rows| - 1]] else before)
  {
    var prefix, last := rows[..|rows| - 1], rows[|rows| - 1];
    var idxp := MatchIndices(prefix, c);
    var idx := MatchIndices(rows, c);
    assert idx == if Matches(last, c) then idxp + [|rows| - 1] else idxp;
    var r := if Matches(last, c) then before + [last] else before;
    assert |r| == |idx|;
    forall j | 0 <= j < |r|
      ensures r[j] == rows[idx[j]]
    {
      if j < |before| {
        assert r[j] == before[j] == prefix[idxp[j]];
        assert idx[j] == idxp[j];
      }
    }
  }

  /** Nothing is picked exactly when no row matches. */
  lemma NoMatchesNoIndices(rows: seq<Row>, c: Criterion)
    ensures MatchIndices(rows, c) == [] <==> forall i :: 0 <= i < |rows| ==> !Matches(rows[i], c)
  {
    var idx := MatchIndices(rows, c);
    if idx != [] {
      assert Matches(rows[idx[0]], c);
    }
  }

  /** `d[mask]`: the rows satisfying `c`, in table order. It is exactly the rows at
      `MatchIndices(rows, c)`, so it is empty precisely when no row matches. */
  function Select(rows: seq<Row>, c: Criterion): (r: seq<Row>)
    ensures |r| == |MatchIndices(rows, c)|
    ensures forall j :: 0 <= j < |r| ==> r[j] == rows[MatchIndices(rows, c)[j]]
    ensures r == [] <==> forall i :: 0 <= i < |rows| ==> !Matches(rows[i], c)
  {
    NoMatchesNoIndices(rows, c);
    if |rows| == 0 then []
    else
      var before := Select(rows[..|rows| - 1], c);
      RowsAtMatchesAppend(rows, c, before);
      if Matches(rows[|rows| - 1], c) then before + [rows[|rows| - 1]] else before
  }

  /** A selection keeps the shape of the rows it came from. */
  lemma SelectWidth(rows: seq<Row>, c: Criterion, n: nat)
    requires Width(rows, n)
    ensures Width(Select(rows, c), n)
  {
  }

  /** The count in column `k` of a row; a row too short to have that column contributes 0
      (in a `Valid` table every row has every disease column). */
  function Count(row: Row, k: nat): nat
  {
    if k < |row.deaths| then row.deaths[k] else 0
  }

  /** The sum of column `k` over the rows: `frame[col].sum()`, 0 for no rows. No row's count
      exceeds the total, and the total is 0 exactly when every row counts 0. */
  function ColumnTotal(rows: seq<Row>, k: nat): (r: nat)
    ensures forall i :: 0 <= i < |rows| ==> Count(rows[i], k) <= r
    ensures r == 0 <==> forall i :: 0 <= i < |rows| ==> Count(rows[i], k) == 0
  {
    if |rows| == 0 then 0
    else
      var prefix := rows[..|rows| - 1];
      assert forall i :: 0 <= i < |prefix| ==> rows[i] == prefix[i];
      ColumnTotal(prefix, k) + Count(rows[|rows| - 1], k)
  }

  /** Adding a row to the end adds its count to the column total. */
  lemma ColumnTotalAppend(rows: seq<Row>, x: Row, k: nat)
    ensures ColumnTotal(rows + [x], k) == ColumnTotal(rows, k) + Count(x, k)
  {
    assert (rows + [x])[..|rows|] == rows;
  }

  /** The position of `name` among the disease columns (the first, should a name repeat),
      or None when it is not a disease column. */
  function DiseaseIndex(columns: seq<string>, name: string): (r: Option<nat>)
    ensures r.None? <==> name !in DiseaseColumns(columns)
    ensures r.Some? ==> r.value < |DiseaseColumns(columns)| && DiseaseColumns(columns)[r.value] == name
  {
    var diseases := DiseaseColumns(columns);
    if name in diseases then Some(FirstIndex(diseases, name)) else None
  }
}
