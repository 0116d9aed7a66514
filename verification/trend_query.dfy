/** The trend view: one disease's deaths per year, summed over the world or for one country. */
module TrendQuery {
  import opened Wrappers
  import opened DeathTable

  /** One (Year, count) line of the trend frame. */
  datatype Point = Point(year: int, deaths: nat)

  /** Years strictly increasing along the series, so each year occurs once. */
  predicate YearsAscending(g: seq<Point>)
  {
    forall i, j :: 0 <= i < j < |g| ==> g[i].year < g[j].year
  }

  /** The years a series covers. */
  function Years(g: seq<Point>): set<int>
  {
    set p | p in g :: p.year
  }

  /** The years the table has rows for. */
  function TableYears(rows: seq<Row>): set<int>
  {
    set row | row in rows :: row.year
  }

  /** The count a series records against `year`, 0 when the year is absent. */
  function ValueAt(g: seq<Point>, year: int): nat
  {
    if |g| == 0 then 0 else if g[0].year == year then g[0].deaths else ValueAt(g[1..], year)
  }

  /** In a series with ascending years, each point is what `ValueAt` finds for its year. */
  lemma {:induction false} ValueAtPoint(g: seq<Point>, j: nat)
    requires YearsAscending(g) && j < |g|
    ensures ValueAt(g, g[j].year) == g[j].deaths
  {
    if j > 0 {
      assert g[0].year < g[j].year;
      assert g[1..][j - 1] == g[j];
      ValueAtPoint(g[1..], j - 1);
    }
  }

  /** A year a series does not cover reads as 0. */
  lemma {:induction false} ValueAtAbsent(g: seq<Point>, year: int)
    requires year !in Years(g)
    ensures ValueAt(g, year) == 0
  {
    if |g| > 0 {
      assert g[0] in g;
      assert Years(g[1..]) <= Years(g) by {
        forall y | y in Years(g[1..])
          ensures y in Years(g)
        {
          var p :| p in g[1..] && p.year == y;
          assert p in g;
        }
      }
      ValueAtAbsent(g[1..], year);
    }
  }

  /** The years of a series with a point in front. */
  lemma YearsCons(p: Point, g: seq<Point>)
    ensures Years([p] + g) == {p.year} + Years(g)
  {
    assert forall q :: q in [p] + g <==> q == p || q in g;
  }

  /** Every year of the series lies above `lo`. */
  lemma YearsAbove(g: seq<Point>, lo: int)
    requires forall j :: 0 <= j < |g| ==> lo < g[j].year
    ensures forall y :: y in Years(g) ==> lo < y
  {
    forall y | y in Years(g)
      ensures lo < y
    {
      var p :| p in g && p.year == y;
      var q :| 0 <= q < |g| && g[q] == p;
    }
  }

  /** A series whose years lie above `lo`, in set form, has every point above `lo`. */
  lemma PointsAbove(g: seq<Point>, lo: int)
    requires forall y :: y in Years(g) ==> lo < y
    ensures forall j :: 0 <= j < |g| ==> lo < g[j].year
  {
    forall j | 0 <= j < |g|
      ensures lo < g[j].year
    {
      assert g[j] in g;
      assert g[j].year in Years(g);
    }
  }

  /** Adding to the group in front: the front point grows by `v`, nothing else changes. */
  lemma AddToFront(g: seq<Point>, v: nat)
    requires YearsAscending(g) && |g| > 0
    ensures var r := [Point(g[0].year, g[0].deaths + v)] + g[1..];
      && YearsAscending(r)
      && Years(r) == Years(g) + {g[0].year}
      && forall y :: ValueAt(r, y) == ValueAt(g, y) + (if y == g[0].year then v else 0)
  {
    var r := [Point(g[0].year, g[0].deaths + v)] + g[1..];
    assert g == [g[0]] + g[1..];
    assert r[1..] == g[1..];
    YearsCons(g[0], g[1..]);
    YearsCons(r[0], g[1..]);
    assert forall j :: 0 <= j < |r| ==> r[j].year == g[j].year;
  }

  /** A year below every year of the series opens a new group in front. */
  lemma OpenInFront(g: seq<Point>, year: int, v: nat)
    requires YearsAscending(g) && (|g| == 0 || year < g[0].year)
    ensures var r := [Point(year, v)] + g;
      && YearsAscending(r)
      && Years(r) == Years(g) + {year}
      && forall y :: ValueAt(r, y) == ValueAt(g, y) + (if y == year then v else 0)
  {
    var r := [Point(year, v)] + g;
    assert r[1..] == g;
    assert forall j :: 0 <= j < |g| ==> year < g[j].year by {
      forall j | 0 <= j < |g|
        ensures year < g[j].year
      {
        if j > 0 {
          assert g[0].year < g[j].year;
        }
      }
    }
    YearsAbove(g, year);
    ValueAtAbsent(g, year);
    YearsCons(r[0], g);
  }

  /** A point in front of a series whose years all lie above its own keeps the years ascending. */
  lemma FrontBelowRest(p: Point, rest: seq<Point>)
    requires YearsAscending(rest)
    requires forall y :: y in Years(rest) ==> p.year < y
    ensures YearsAscending([p] + rest)
  {
    PointsAbove(rest, p.year);
    assert ([p] + rest)[1..] == rest;
  }

  /** Behind a front point of another year, values are read from the rest of the series. */
  lemma ValueBehindFront(g: seq<Point>, year: int, v: nat, rest: seq<Point>)
    requires |g| > 0 && g[0].year != year
    requires forall y :: ValueAt(rest, y) == ValueAt(g[1..], y) + (if y == year then v else 0)
    ensures forall y :: ValueAt([g[0]] + rest, y) == ValueAt(g, y) + (if y == year then v else 0)
  {
    assert ([g[0]] + rest)[1..] == rest;
  }

  /** Behind a front point, the years of the series are the front year and the rest's. */
  lemma YearsBehindFront(g: seq<Point>, year: int, rest: seq<Point>)
    requires |g| > 0
    requires Years(rest) == Years(g[1..]) + {year}
    ensures Years([g[0]] + rest) == Years(g) + {year}
  {
    assert g == [g[0]] + g[1..];
    YearsCons(g[0], g[1..]);
    YearsCons(g[0], rest);
  }

  /** A year above the front point's goes behind it: if `rest` is the tail of `g` with `v`
      added to `year`, then the front point followed by `rest` is `g` with `v` added to `year`. */
  lemma AddBehindFront(g: seq<Point>, year: int, v: nat, rest: seq<Point>)
    requires YearsAscending(g) && |g| > 0 && g[0].year < year
    requires YearsAscending(rest)
    requires Years(rest) == Years(g[1..]) + {year}
    requires forall y :: ValueAt(rest, y) == ValueAt(g[1..], y) + (if y == year then v else 0)
    ensures YearsAscending([g[0]] + rest)
    ensures Years([g[0]] + rest) == Years(g) + {year}
    ensures forall y :: ValueAt([g[0]] + rest, y) == ValueAt(g, y) + (if y == year then v else 0)
  {
    var tail := g[1..];
    assert forall j :: 0 <= j < |tail| ==> g[0].year < tail[j].year by {
      assert forall j :: 0 <= j < |tail| ==> tail[j] == g[j + 1];
    }
    YearsAbove(tail, g[0].year);
    YearsBehindFront(g, year, rest);
    FrontBelowRest(g[0], rest);
    ValueBehindFront(g, year, v, rest);
  }

  /** One step of `groupby("Year").sum()`: adds `v` to the group of `year`, opening a new group
      in year order when there is none. The series stays in ascending year order, gains `year`
      and nothing else, and only `year`'s value grows, by exactly `v`. */
  function AddToGroup(g: seq<Point>, year: int, v: nat): (r: seq<Point>)
    requires YearsAscending(g)
    ensures YearsAscending(r)
    ensures Years(r) == Years(g) + {year}
    ensures forall y :: ValueAt(r, y) == ValueAt(g, y) + (if y == year then v else 0)
  {
    if |g| == 0 || year < g[0].year then
      OpenInFront(g, year, v);
      [Point(year, v)] + g
    else if g[0].year == year then
      AddToFront(g, v);
      [Point(year, g[0].deaths + v)] + g[1..]
    else
      var rest := AddToGroup(g[1..], year, v);
      AddBehindFront(g, year, v, rest);
      [g[0]] + rest
  }

  /** A row appended to the table adds its year to the table's years. */
  lemma TableYearsAppend(rows: seq<Row>, x: Row)
    ensures TableYears(rows + [x]) == TableYears(rows) + {x.year}
  {
    assert forall row :: row in rows + [x] <==> row in rows || row == x;
  }

  /** A row appended to the table adds its count to its own year's total and to no other. */
  lemma YearTotalAppend(rows: seq<Row>, x: Row, k: nat, y: int)
    ensures ColumnTotal(Select(rows + [x], InYear(y)), k)
            == ColumnTotal(Select(rows, InYear(y)), k) + (if y == x.year then Count(x, k) else 0)
  {
    assert (rows + [x])[..|rows|] == rows;
    if y == x.year {
      ColumnTotalAppend(Select(rows, InYear(y)), x, k);
    }
  }

  /** `groupby("Year")[disease].sum()` over the rows in table order: one point per year of the
      table, years ascending, each year's value the column total over that year's rows. */
  function GroupByYear(rows: seq<Row>, k: nat): (r: seq<Point>)
    ensures YearsAscending(r)
    ensures Years(r) == TableYears(rows)
    ensures forall y :: ValueAt(r, y) == ColumnTotal(Select(rows, InYear(y)), k)
  {
    if |rows| == 0 then []
    else
      var prefix := rows[..|rows| - 1];
      var last := rows[|rows| - 1];
      assert rows == prefix + [last];
      TableYearsAppend(prefix, last);
      forall y
        ensures ColumnTotal(Select(rows, InYear(y)), k)
                == ColumnTotal(Select(prefix, InYear(y)), k) + (if y == last.year then Count(last, k) else 0)
      {
        YearTotalAppend(prefix, last, k, y);
      }
      AddToGroup(GroupByYear(prefix, k), last.year, Count(last, k))
  }

  /** The world trend of disease column `k`: exactly one point per year present in the table,
      years strictly ascending, each value the sum of column `k` over the rows of that year. */
  function GlobalTrend(rows: seq<Row>, k: nat): (r: seq<Point>)
    ensures YearsAscending(r)
    ensures forall y :: y in Years(r) <==> exists i :: 0 <= i < |rows| && rows[i].year == y
    ensures forall j :: 0 <= j < |r| ==> r[j].deaths == ColumnTotal(Select(rows, InYear(r[j].year)), k)
  {
    var r := GroupByYear(rows, k);
    forall j | 0 <= j < |r|
      ensures r[j].deaths == ColumnTotal(Select(rows, InYear(r[j].year)), k)
    {
      ValueAtPoint(r, j);
    }
    assert forall y :: y in TableYears(rows) <==> exists i :: 0 <= i < |rows| && rows[i].year == y by {
      forall y
        ensures y in TableYears(rows) <==> exists i :: 0 <= i < |rows| && rows[i].year == y
      {
        if y in TableYears(rows) {
          var row :| row in rows && row.year == y;
          var i :| 0 <= i < |rows| && rows[i] == row;
        }
        if exists i :: 0 <= i < |rows| && rows[i].year == y {
          var i :| 0 <= i < |rows| && rows[i].year == y;
          assert rows[i] in rows;
        }
      }
    }
    r
  }

  /** One country's trend of disease column `k`: the table rows of that country, in table order,
      each cut down to (Year, count); an unknown country gives an empty series, not an error. */
  function CountryTrend(rows: seq<Row>, country: string, k: nat): (r: seq<Point>)
    ensures |r| == |MatchIndices(rows, OfCountry(country))|
    ensures forall j :: 0 <= j < |r| ==>
              var i := MatchIndices(rows, OfCountry(country))[j];
              r[j] == Point(rows[i].year, Count(rows[i], k))
    ensures (forall i :: 0 <= i < |rows| ==> rows[i].country != country) ==> r == []
  {
    var picked := Select(rows, OfCountry(country));
    seq(|picked|, j requires 0 <= j < |picked| => Point(picked[j].year, Count(picked[j], k)))
  }

  /** The trend frame for a selection: an unknown disease name fails; otherwise "Global" gives
      the world trend of that disease and any other name that country's trend. */
  function Trend(t: Table, disease: string, country: string): (r: Result<seq<Point>, QueryError>)
    ensures r.Failure? <==> disease !in DiseaseColumns(t.columns)
    ensures r.Failure? ==> r.error == UnknownDisease(disease)
    ensures r.Success? && country == Global ==>
              && YearsAscending(r.value)
              && (forall y :: y in Years(r.value) <==> exists i :: 0 <= i < |t.rows| && t.rows[i].year == y)
              && forall j :: 0 <= j < |r.value| ==>
                   r.value[j].deaths == ColumnTotal(Select(t.rows, InYear(r.value[j].year)), DiseaseIndex(t.columns, disease).value)
    ensures r.Success? && country != Global ==>
              var idx := MatchIndices(t.rows, OfCountry(country));
              && |r.value| == |idx|
              && forall j :: 0 <= j < |r.value| ==>
                   r.value[j] == Point(t.rows[idx[j]].year, Count(t.rows[idx[j]], DiseaseIndex(t.columns, disease).value))
  {
    match DiseaseIndex(t.columns, disease)
    case None => Failure(UnknownDisease(disease))
    case Some(k) =>
      if country == Global then Success(GlobalTrend(t.rows, k))
      else Success(CountryTrend(t.rows, country, k))
  }
}
