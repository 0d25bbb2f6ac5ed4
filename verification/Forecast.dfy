/** The forward cash forecast: events grouped by day, then a walk over the days. */
module Forecast {
  import opened Common
  import opened DatedSums

  datatype Day = Day(inflow: int, outflow: int)

  /** One day of the forecast; no balance when the start balance is withheld. */
  datatype Point = Point(date: int, balance: Option<int>, inflow: int, outflow: int)

  datatype Low = Low(date: int, balance: Option<int>)

  datatype Projection = Projection(points: seq<Point>, lowest: Low, inflow: int, outflow: int)

  // ----- which events count

  predicate Counts(e: Dated, today: int, horizon: int) {
    today <= e.date <= horizon && e.cents != 0
  }

  function Accepted(events: seq<Dated>, today: int, horizon: int): seq<Dated> {
    if events == [] then []
    else
      var last := events[|events| - 1];
      Accepted(events[..|events| - 1], today, horizon) + if Counts(last, today, horizon) then [last] else []
  }

  lemma {:induction false} AcceptedCount(events: seq<Dated>, today: int, horizon: int)
    ensures forall i | 0 <= i < |Accepted(events, today, horizon)| ::
              Counts(Accepted(events, today, horizon)[i], today, horizon)
    ensures forall day | today <= day <= horizon ::
              SumUpTo(Accepted(events, today, horizon), day) == SumUpTo(events, day) - SumUpTo(events, today - 1)
  {
    if events != [] {
      var front, last := events[..|events| - 1], events[|events| - 1];
      AcceptedCount(front, today, horizon);
      var before := Accepted(front, today, horizon);
      assert (before + [last])[..|before|] == before;
      assert Accepted(events, today, horizon) == if Counts(last, today, horizon) then before + [last] else before;
    }
  }

  // ----- grouping by day

  method GroupByDay(rows: seq<Dated>) returns (byDate: map<int, Day>)
    ensures forall d :: (if d in byDate then byDate[d] else Day(0, 0)) == Day(InflowOn(rows, d), OutflowOn(rows, d))
  {
    byDate := map[];
    for i := 0 to |rows|
      invariant forall d :: (if d in byDate then byDate[d] else Day(0, 0))
                         == Day(InflowOn(rows[..i], d), OutflowOn(rows[..i], d))
    {
      assert rows[..i + 1][..i] == rows[..i];
      var e := rows[i];
      var day := if e.date in byDate then byDate[e.date] else Day(0, 0);
      if e.cents >= 0 {
        day := day.(inflow := day.inflow + e.cents);
      } else {
        day := day.(outflow := day.outflow - e.cents);
      }
      byDate := byDate[e.date := day];
    }
    assert rows[..|rows|] == rows;
  }

  // ----- the walk

  function PointOn(rows: seq<Dated>, start: Option<int>, date: int): Point {
    Point(date, if start.Some? then Some(start.value + SumUpTo(rows, date)) else None,
          InflowOn(rows, date), OutflowOn(rows, date))
  }

  /** `low` is the least of the start balance and the points' balances, at the earliest date it
      is reached; the start balance counts as reached today, before today's events. */
  ghost predicate IsLowest(low: Low, start: int, today: int, points: seq<Point>) {
    && low.balance.Some? && low.balance.value <= start
    && (forall i | 0 <= i < |points| && points[i].balance.Some? :: low.balance.value <= points[i].balance.value)
    && (low == Low(today, Some(start))
        || exists i :: 0 <= i < |points| && low == Low(points[i].date, points[i].balance)
                    && low.balance.value < start
                    && forall j | 0 <= j < i && points[j].balance.Some? :: low.balance.value < points[j].balance.value)
  }

  function TotalIn(rows: seq<Dated>): int {
    if rows == [] then 0 else TotalIn(rows[..|rows| - 1]) + Max(0, rows[|rows| - 1].cents)
  }

  function TotalOut(rows: seq<Dated>): int {
    if rows == [] then 0 else TotalOut(rows[..|rows| - 1]) + Max(0, -rows[|rows| - 1].cents)
  }

  lemma {:induction false} AcceptedTotals(events: seq<Dated>, today: int, horizon: int)
    ensures TotalIn(Accepted(events, today, horizon))
         == SumBy(events, (e: Dated) => if today <= e.date <= horizon && e.cents > 0 then e.cents else 0)
    ensures TotalOut(Accepted(events, today, horizon))
         == SumBy(events, (e: Dated) => if today <= e.date <= horizon && e.cents < 0 then -e.cents else 0)
  {
    if events != [] {
      var front, last := events[..|events| - 1], events[|events| - 1];
      AcceptOneMore(front, last, today, horizon);
      assert events == front + [last];
      AcceptedTotals(front, today, horizon);
      TotalsOfMore(Accepted(front, today, horizon), last);
      hide Accepted, TotalIn, TotalOut;
    }
  }

  lemma TotalsOfMore(rows: seq<Dated>, e: Dated)
    ensures TotalIn(rows + [e]) == TotalIn(rows) + Max(0, e.cents)
    ensures TotalOut(rows + [e]) == TotalOut(rows) + Max(0, -e.cents)
  {
    assert (rows + [e])[..|rows|] == rows;
  }

  lemma {:induction false} AcceptedOnDay(events: seq<Dated>, today: int, horizon: int, day: int)
    requires today <= day <= horizon
    ensures InflowOn(Accepted(events, today, horizon), day) == InflowOn(events, day)
    ensures OutflowOn(Accepted(events, today, horizon), day) == OutflowOn(events, day)
  {
    if events != [] {
      var front, last := events[..|events| - 1], events[|events| - 1];
      AcceptOneMore(front, last, today, horizon);
      assert events == front + [last];
      hide *;
      AcceptedOnDay(front, today, horizon, day);
      var before := Accepted(front, today, horizon);
      FlowOnMore(front, last, day);
      FlowOnMore(before, last, day);
    }
  }

  lemma FlowOnMore(rows: seq<Dated>, e: Dated, day: int)
    ensures InflowOn(rows + [e], day) == InflowOn(rows, day) + if e.date == day && e.cents > 0 then e.cents else 0
    ensures OutflowOn(rows + [e], day) == OutflowOn(rows, day) + if e.date == day && e.cents < 0 then -e.cents else 0
  {
    assert (rows + [e])[..|rows|] == rows;
  }

  lemma AcceptOneMore(events: seq<Dated>, e: Dated, today: int, horizon: int)
    ensures var before, after := Accepted(events, today, horizon), Accepted(events + [e], today, horizon);
            && after == (if today <= e.date <= horizon && e.cents != 0 then before + [e] else before)
            && (before + [e])[..|before|] == before
  {
    assert (events + [e])[..|events|] == events;
  }

  lemma {:induction false} TotalsByHorizon(rows: seq<Dated>, horizon: int)
    requires forall i | 0 <= i < |rows| :: rows[i].date <= horizon
    ensures SumUpTo(rows, horizon) == TotalIn(rows) - TotalOut(rows)
  {
    if rows != [] {
      TotalsByHorizon(rows[..|rows| - 1], horizon);
    }
  }

  method Walk(rows: seq<Dated>, start: Option<int>, today: int, days: nat)
    returns (points: seq<Point>, lowest: Low)
    requires forall i | 0 <= i < |rows| :: today <= rows[i].date
    ensures |points| == days + 1 && forall i | 0 <= i <= days :: points[i] == PointOn(rows, start, today + i)
    ensures if start.Some? then IsLowest(lowest, start.value, today, points) else lowest == Low(today, None)
  {
    var byDate := GroupByDay(rows);
    points := [];
    var balance := start;
    lowest := Low(today, start);
    NothingYet(rows, today - 1);
    hide SumUpTo, InflowOn, OutflowOn;
    for i := 0 to days + 1
      invariant |points| == i && forall j | 0 <= j < i :: points[j] == PointOn(rows, start, today + j)
      invariant balance == if start.Some? then Some(start.value + SumUpTo(rows, today + i - 1)) else None
      invariant if start.Some? then IsLowest(lowest, start.value, today, points) else lowest == Low(today, None)
    {
      var date := today + i;
      NextDay(rows, date);
      var day := if date in byDate then byDate[date] else Day(0, 0);
      if date in byDate && balance.Some? {
        balance := Some(balance.value + day.inflow - day.outflow);
      }
      var p := Point(date, balance, day.inflow, day.outflow);
      ghost var before := points;
      points := points + [p];
      if balance.Some? {
        LowestGoesOn(lowest, start.value, today, before, p);
        if lowest.balance.None? || balance.value < lowest.balance.value {
          lowest := Low(date, balance);
        }
      }
    }
  }

  lemma LowestGoesOn(low: Low, start: int, today: int, points: seq<Point>, p: Point)
    requires IsLowest(low, start, today, points) && p.balance.Some?
    ensures IsLowest(if p.balance.value < low.balance.value then Low(p.date, p.balance) else low,
                     start, today, points + [p])
  {
    var after := points + [p];
    assert after[|points|] == p && forall i | 0 <= i < |points| :: after[i] == points[i];
  }

  /** A point told from the raw events: what is dated that day, and everything since today. */
  ghost predicate Tells(p: Point, events: seq<Dated>, start: Option<int>, today: int, date: int) {
    && p.date == date
    && p.inflow == SumBy(events, (e: Dated) => if e.date == date && e.cents > 0 then e.cents else 0)
    && p.outflow == SumBy(events, (e: Dated) => if e.date == date && e.cents < 0 then -e.cents else 0)
    && (start.None? <==> p.balance.None?)
    && (start.Some? ==>
          p.balance.value == start.value + SumBy(events, (e: Dated) => if today <= e.date <= date then e.cents else 0))
  }

  lemma PointTells(events: seq<Dated>, start: Option<int>, today: int, horizon: int, date: int)
    requires today <= date <= horizon
    ensures Tells(PointOn(Accepted(events, today, horizon), start, date), events, start, today, date)
  {
    AcceptedCount(events, today, horizon);
    AcceptedOnDay(events, today, horizon, date);
    SumsAre(events, date);
    SinceToday(events, today, date);
    hide Accepted, SumUpTo, InflowOn, OutflowOn, SumBy;
  }

  lemma {:induction false} SinceToday(events: seq<Dated>, today: int, day: int)
    requires today <= day
    ensures SumUpTo(events, day) - SumUpTo(events, today - 1)
         == SumBy(events, (e: Dated) => if today <= e.date <= day then e.cents else 0)
  {
    if events != [] {
      SinceToday(events[..|events| - 1], today, day);
    }
  }

  /** What is known of the low, in terms of the points alone. */
  ghost predicate LowestAndEarliest(low: Low, start: int, today: int, points: seq<Point>) {
    && low.balance.Some?
    && low.balance.value <= start
    && (forall i | 0 <= i < |points| && points[i].balance.Some? :: low.balance.value <= points[i].balance.value)
    && (low.balance.value == start ==> low.date == today)
    && (low.balance.value < start ==>
          && (exists i :: 0 <= i < |points| && points[i].date == low.date && points[i].balance == low.balance)
          && forall i | 0 <= i < |points| && points[i].balance == low.balance :: low.date <= points[i].date)
  }

  lemma LowestIsEarliest(low: Low, start: int, today: int, points: seq<Point>)
    requires IsLowest(low, start, today, points)
    requires forall i, j | 0 <= i < j < |points| :: points[i].date < points[j].date
    ensures LowestAndEarliest(low, start, today, points)
  {
    if low.balance.value < start {
      var i :| 0 <= i < |points| && low == Low(points[i].date, points[i].balance)
            && forall j | 0 <= j < i && points[j].balance.Some? :: low.balance.value < points[j].balance.value;
      forall k | 0 <= k < |points| && points[k].balance == low.balance ensures low.date <= points[k].date {
        assert k >= i;
      }
    }
  }

  /** Every point is the start balance plus all accepted events dated on or before it, the last
      is the start plus the totals, and the low is exact, although the events are grouped first. */
  method BuildForecast(events: seq<Dated>, start: Option<int>, today: int, days: nat) returns (r: Projection)
    ensures |r.points| == days + 1
    ensures forall i | 0 <= i <= days :: Tells(r.points[i], events, start, today, today + i)
    ensures r.inflow == SumBy(events, (e: Dated) =>
              if today <= e.date <= today + days && e.cents > 0 then e.cents else 0)
    ensures r.outflow == SumBy(events, (e: Dated) =>
              if today <= e.date <= today + days && e.cents < 0 then -e.cents else 0)
    ensures start.Some? ==> r.points[days].balance == Some(start.value + r.inflow - r.outflow)
    ensures start.Some? ==> LowestAndEarliest(r.lowest, start.value, today, r.points)
    ensures start.None? ==> r.lowest == Low(today, None)
  {
    var rows := Accepted(events, today, today + days);
    AcceptedCount(events, today, today + days);
    hide Accepted, SumUpTo, SumBy, TotalIn, TotalOut, Tells, IsLowest, LowestAndEarliest;
    var points, lowest := Walk(rows, start, today, days);
    PointsTell(events, start, today, days, points);
    AcceptedTotals(events, today, today + days);
    if start.Some? {
      ClosingBalance(events, start, today, days);
      LowestIsEarliest(lowest, start.value, today, points);
    }
    r := Projection(points, lowest, TotalIn(rows), TotalOut(rows));
  }

  lemma PointsTell(events: seq<Dated>, start: Option<int>, today: int, days: nat, points: seq<Point>)
    requires |points| == days + 1
    requires forall i | 0 <= i <= days ::
               points[i] == PointOn(Accepted(events, today, today + days), start, today + i)
    ensures forall i | 0 <= i <= days :: Tells(points[i], events, start, today, today + i)
  {
    hide Accepted, PointOn, Tells;
    forall i | 0 <= i <= days ensures Tells(points[i], events, start, today, today + i) {
      PointTells(events, start, today, today + days, today + i);
    }
  }

  lemma ClosingBalance(events: seq<Dated>, start: Option<int>, today: int, days: nat)
    requires start.Some?
    ensures var rows := Accepted(events, today, today + days);
            PointOn(rows, start, today + days).balance == Some(start.value + TotalIn(rows) - TotalOut(rows))
  {
    AcceptedCount(events, today, today + days);
    hide Accepted, SumUpTo, TotalIn, TotalOut;
    TotalsByHorizon(Accepted(events, today, today + days), today + days);
  }
}
