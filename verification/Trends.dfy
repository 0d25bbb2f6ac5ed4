/** The month-by-month net worth of the trends view. */
module Trends {
  import opened Common
  import opened DatedSums

  ghost predicate ByDate(rows: seq<Dated>) {
    forall i, j | 0 <= i < j < |rows| :: rows[i].date <= rows[j].date
  }

  /** Once a row is later than the day, so are the rest. */
  lemma SumOfPrefix(rows: seq<Dated>, n: nat, day: int)
    requires ByDate(rows) && n <= |rows|
    requires forall i | 0 <= i < n :: rows[i].date <= day
    requires n < |rows| ==> day < rows[n].date
    ensures SumUpTo(rows, day) == SumUpTo(rows[..n], day)
  {
    assert rows == rows[..n] + rows[n..];
    SumOfConcat(rows[..n], rows[n..], day);
    NothingYet(rows[n..], day);
  }

  /** One pass over the contributions, in whatever order by date the sort leaves them, gives for
      every month end the sum of all contributions dated on or before it. */
  method NetWorthSeries(contributions: seq<Dated>, sorted: seq<Dated>, ends: seq<int>) returns (series: seq<int>)
    requires multiset(sorted) == multiset(contributions) && ByDate(sorted)
    requires forall i, j | 0 <= i < j < |ends| :: ends[i] <= ends[j]
    ensures |series| == |ends|
    ensures forall j | 0 <= j < |ends| ::
              series[j] == SumBy(contributions, (e: Dated) => if e.date <= ends[j] then e.cents else 0)
  {
    series := [];
    var idx, run := 0, 0;
    for m := 0 to |ends|
      invariant 0 <= idx <= |sorted| && |series| == m
      invariant forall i, j | 0 <= i < idx && m <= j < |ends| :: sorted[i].date <= ends[j]
      invariant forall j | m <= j < |ends| :: run == SumUpTo(sorted[..idx], ends[j])
      invariant forall j | 0 <= j < m :: series[j] == SumUpTo(contributions, ends[j])
    {
      var end := ends[m];
      while idx < |sorted| && sorted[idx].date <= end
        invariant 0 <= idx <= |sorted|
        invariant forall i, j | 0 <= i < idx && m <= j < |ends| :: sorted[i].date <= ends[j]
        invariant forall j | m <= j < |ends| :: run == SumUpTo(sorted[..idx], ends[j])
      {
        assert sorted[..idx + 1][..idx] == sorted[..idx];
        run := run + sorted[idx].cents;
        idx := idx + 1;
      }
      SumOfPrefix(sorted, idx, end);
      SumOfPermutation(sorted, contributions, end);
      series := series + [run];
    }
    forall j | 0 <= j < |ends| {
      SumsAre(contributions, ends[j]);
    }
  }
}
