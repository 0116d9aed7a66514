/** The snapshot view: every disease's deaths for one year, for the whole world or one country,
    then sorted by deaths for the bar chart and cut to the five leading causes. */
module SnapshotQuery {
  import opened Wrappers
  import opened DeathTable

  /** One (Disease, Deaths) line of the snapshot frame. */
  datatype Entry = Entry(disease: string, deaths: nat)

  /** The Disease column of a frame. */
  function Diseases(es: seq<Entry>): seq<string>
  {
    seq(|es|, k requires 0 <= k < |es| => es[k].disease)
  }

  /** The Deaths column of a frame. */
  function DeathCounts(es: seq<Entry>): seq<nat>
  {
    seq(|es|, k requires 0 <= k < |es| => es[k].deaths)
  }

  /** Pairs each disease name with the count at the same position; splitting the frame back
      into its two columns gives the names and the counts again. */
  function Entries(names: seq<string>, counts: seq<nat>): (r: seq<Entry>)
    requires |counts| == |names|
    ensures |r| == |names|
    ensures forall k :: 0 <= k < |r| ==> r[k] == Entry(names[k], counts[k])
    ensures Diseases(r) == names && DeathCounts(r) == counts
  {
    seq(|names|, k requires 0 <= k < |names| => Entry(names[k], counts[k]))
  }

  /** Column-wise sum of the rows, as `DataFrame.sum()` gives it: position `k` is the total
      of column `k`. */
  function SumRows(rows: seq<Row>, width: nat): (r: seq<nat>)
    requires Width(rows, width)
    ensures |r| == width
    ensures forall k :: 0 <= k < width ==> r[k] == ColumnTotal(rows, k)
  {
    if |rows| == 0 then seq(width, _ => 0)
    else
      var acc := SumRows(rows[..|rows| - 1], width);
      var last := rows[|rows| - 1].deaths;
      seq(width, k requires 0 <= k < width => acc[k] + last[k])
  }

  /** The world snapshot for `year`: for each disease column, in header order, the sum of that
      column over the rows of that year; every sum is 0 when no row has that year. */
  function GlobalSnapshot(t: Table, year: int): (r: seq<Entry>)
    requires t.Valid()
    ensures |r| == |DiseaseColumns(t.columns)|
    ensures forall k :: 0 <= k < |r| ==>
              && r[k].disease == DiseaseColumns(t.columns)[k]
              && r[k].deaths == ColumnTotal(Select(t.rows, InYear(year)), k)
    ensures (forall i :: 0 <= i < |t.rows| ==> t.rows[i].year != year) ==>
              forall k :: 0 <= k < |r| ==> r[k].deaths == 0
  {
    var width := |t.columns| - 3;
    var inYear := Select(t.rows, InYear(year));
    SelectWidth(t.rows, InYear(year), width);
    assert (forall i :: 0 <= i < |t.rows| ==> t.rows[i].year != year) ==> inYear == [];
    Entries(DiseaseColumns(t.columns), SumRows(inYear, width))
  }

  /** One country's snapshot for `year`: the disease counts of the first row for that country
      and year, unchanged and in header order; NotFound when there is no such row. */
  function CountrySnapshot(t: Table, year: int, country: string): (r: Result<seq<Entry>, QueryError>)
    requires t.Valid()
    ensures r.Failure? <==> forall i :: 0 <= i < |t.rows| ==> !Matches(t.rows[i], At(year, country))
    ensures r.Failure? ==> r.error == NotFound(year, country)
    ensures r.Success? ==>
              exists i :: 0 <= i < |t.rows|
                && Matches(t.rows[i], At(year, country))
                && (forall j :: 0 <= j < i ==> !Matches(t.rows[j], At(year, country)))
                && r.value == Entries(DiseaseColumns(t.columns), t.rows[i].deaths)
  {
    var matching := Select(t.rows, At(year, country));
    if |matching| == 0 then Failure(NotFound(year, country))
    else
      var idx := MatchIndices(t.rows, At(year, country));
      var i := idx[0];
      assert forall j :: 0 <= j < i ==> !Matches(t.rows[j], At(year, country));
      Success(Entries(DiseaseColumns(t.columns), matching[0].deaths))
  }

  /** The snapshot frame for a country selection: the world sums when "Global" is picked,
      otherwise that country's row. */
  function Snapshot(t: Table, year: int, country: string): (r: Result<seq<Entry>, QueryError>)
    requires t.Valid()
    ensures r.Failure? <==>
              country != Global && forall i :: 0 <= i < |t.rows| ==> !Matches(t.rows[i], At(year, country))
    ensures r.Success? ==> |r.value| == |DiseaseColumns(t.columns)|
    ensures r.Success? ==> forall k :: 0 <= k < |r.value| ==> r.value[k].disease == DiseaseColumns(t.columns)[k]
    ensures r.Success? && country == Global ==>
              forall k :: 0 <= k < |r.value| ==> r.value[k].deaths == ColumnTotal(Select(t.rows, InYear(year)), k)
    ensures r.Success? && country != Global ==>
              exists i :: 0 <= i < |t.rows|
                && Matches(t.rows[i], At(year, country))
                && (forall j :: 0 <= j < i ==> !Matches(t.rows[j], At(year, country)))
                && r.value == Entries(DiseaseColumns(t.columns), t.rows[i].deaths)
  {
    if country == Global then Success(GlobalSnapshot(t, year)) else CountrySnapshot(t, year, country)
  }

  /** Sorted by deaths, largest first. */
  predicate ByDeathsDescending(s: seq<Entry>)
  {
    forall i, j :: 0 <= i < j < |s| ==> s[i].deaths >= s[j].deaths
  }

  /** An entry with at least the deaths of a sorted list's front can go in front of it. */
  lemma PrependByDeaths(e: Entry, s: seq<Entry>)
    requires ByDeathsDescending(s)
    requires forall j :: 0 <= j < |s| ==> e.deaths >= s[j].deaths
    ensures ByDeathsDescending([e] + s)
  {
    assert forall j :: 0 < j < |[e] + s| ==> ([e] + s)[j] == s[j - 1];
  }

  /** The front entry of a sorted list bounds every rearrangement of its tail plus an entry
      with fewer deaths. */
  lemma FrontBoundsInsert(e: Entry, s: seq<Entry>, rest: seq<Entry>)
    requires ByDeathsDescending(s) && |s| > 0 && e.deaths < s[0].deaths
    requires multiset(rest) == multiset(s[1..]) + multiset{e}
    ensures forall j :: 0 <= j < |rest| ==> s[0].deaths >= rest[j].deaths
  {
    forall j | 0 <= j < |rest|
      ensures s[0].deaths >= rest[j].deaths
    {
      assert rest[j] in multiset(rest);
      if rest[j] != e {
        assert rest[j] in multiset(s[1..]);
        var q :| 0 <= q < |s[1..]| && s[1..][q] == rest[j];
        assert s[q + 1] == rest[j];
      }
    }
  }

  /** Inserts `e` into a list sorted by deaths, largest first, before the first entry with
      at most as many deaths. */
  function InsertByDeaths(e: Entry, s: seq<Entry>): (r: seq<Entry>)
    requires ByDeathsDescending(s)
    ensures ByDeathsDescending(r)
    ensures multiset(r) == multiset(s) + multiset{e}
  {
    if |s| == 0 || e.deaths >= s[0].deaths then
      assert forall j :: 0 <= j < |s| ==> s[0].deaths >= s[j].deaths;
      PrependByDeaths(e, s);
      [e] + s
    else
      var rest := InsertByDeaths(e, s[1..]);
      FrontBoundsInsert(e, s, rest);
      PrependByDeaths(s[0], rest);
      assert multiset([s[0]] + rest) == multiset(s) + multiset{e} by {
        assert s == [s[0]] + s[1..];
      }
      [s[0]] + rest
  }

  /** `sort_values("Deaths", ascending=False)`: a rearrangement of the entries with deaths
      non-increasing. The order among equal counts is left open. */
  function SortByDeaths(s: seq<Entry>): (r: seq<Entry>)
    ensures ByDeathsDescending(r)
    ensures multiset(r) == multiset(s)
  {
    if |s| == 0 then []
    else
      assert s == [s[0]] + s[1..];
      InsertByDeaths(s[0], SortByDeaths(s[1..]))
  }

  function Min(a: nat, b: nat): nat { if a <= b then a else b }

  /** Cutting a list at `n`: what the front leaves of the list's multiset is the back. */
  lemma CutMultiset(s: seq<Entry>, n: nat)
    requires n <= |s|
    ensures multiset(s[..n]) <= multiset(s)
    ensures multiset(s) - multiset(s[..n]) == multiset(s[n..])
  {
    assert s == s[..n] + s[n..];
  }

  /** Cutting a list sorted by deaths at `n`: the part before the cut is drawn from the list, and
      every entry before the cut has at least the deaths of every entry the cut leaves out. */
  lemma SplitByDeaths(sorted: seq<Entry>, n: nat)
    requires ByDeathsDescending(sorted) && n <= |sorted|
    ensures multiset(sorted[..n]) <= multiset(sorted)
    ensures forall e, x :: e in sorted[..n] && x in multiset(sorted) - multiset(sorted[..n]) ==>
              e.deaths >= x.deaths
  {
    CutMultiset(sorted, n);
    forall e, x | e in sorted[..n] && x in multiset(sorted[n..])
      ensures e.deaths >= x.deaths
    {
      var a :| 0 <= a < n && sorted[..n][a] == e;
      var b :| 0 <= b < |sorted| - n && sorted[n..][b] == x;
      assert sorted[a].deaths >= sorted[n + b].deaths;
    }
  }

  /** `.head(5)` of the sorted frame: the min(5, n) entries with the most deaths. Together with
      the entries left out they make up the snapshot, and none left out has more deaths than
      any entry kept. */
  function TopFive(s: seq<Entry>): (r: seq<Entry>)
    ensures |r| == Min(5, |s|)
    ensures ByDeathsDescending(r)
    ensures multiset(r) <= multiset(s)
    ensures forall e, x :: e in r && x in multiset(s) - multiset(r) ==> e.deaths >= x.deaths
  {
    var sorted := SortByDeaths(s);
    assert |sorted| == |multiset(s)| == |s|;
    var n := Min(5, |s|);
    SplitByDeaths(sorted, n);
    sorted[..n]
  }

  /** What the snapshot view shows: the chart frame sorted by deaths and the top-five table. */
  datatype SnapshotDisplay = SnapshotDisplay(chart: seq<Entry>, top: seq<Entry>)

  /** The snapshot view for a selection. It fails exactly when a specific country has no row
      for the year; otherwise the chart is the snapshot frame re-ordered by deaths, largest
      first, and the table is its five leading entries. */
  function SnapshotView(t: Table, year: int, country: string): (r: Result<SnapshotDisplay, QueryError>)
    requires t.Valid()
    ensures r.Success? ==> r.value.top == r.value.chart[..Min(5, |r.value.chart|)]
    ensures r.Failure? <==>
              country != Global && forall i :: 0 <= i < |t.rows| ==> !Matches(t.rows[i], At(year, country))
    ensures r.Success? ==>
              && Snapshot(t, year, country).Success?
              && multiset(r.value.chart) == multiset(Snapshot(t, year, country).value)
              && ByDeathsDescending(r.value.chart)
    ensures r.Success? ==>
              && |r.value.top| == Min(5, |DiseaseColumns(t.columns)|)
              && ByDeathsDescending(r.value.top)
              && multiset(r.value.top) <= multiset(r.value.chart)
              && forall e, x :: e in r.value.top && x in multiset(r.value.chart) - multiset(r.value.top) ==>
                   e.deaths >= x.deaths
  {
    match Snapshot(t, year, country)
    case Failure(e) => Failure(e)
    case Success(totals) =>
      assert |SortByDeaths(totals)| == |multiset(SortByDeaths(totals))| == |totals|;
      Success(SnapshotDisplay(SortByDeaths(totals), TopFive(totals)))
  }
}
