/** Sums of dated amounts up to a day. A date is its day number; amounts are whole cents. */
module DatedSums {
  import opened Common

  datatype Dated = Dated(date: int, cents: int)

  /** Everything dated on or before `day`. */
  function SumUpTo(rows: seq<Dated>, day: int): int {
    if rows == [] then 0
    else
      var last := rows[|rows| - 1];
      SumUpTo(rows[..|rows| - 1], day) + if last.date <= day then last.cents else 0
  }

  /** What comes in on `day`, and what goes out, as a positive amount. */
  function InflowOn(rows: seq<Dated>, day: int): int {
    if rows == [] then 0
    else
      var last := rows[|rows| - 1];
      InflowOn(rows[..|rows| - 1], day) + if last.date == day && last.cents >= 0 then last.cents else 0
  }

  function OutflowOn(rows: seq<Dated>, day: int): int {
    if rows == [] then 0
    else
      var last := rows[|rows| - 1];
      OutflowOn(rows[..|rows| - 1], day) + if last.date == day && last.cents < 0 then -last.cents else 0
  }

  /** The three sums are those of the rows' parts. */
  lemma {:induction false} SumsAre(rows: seq<Dated>, day: int)
    ensures SumUpTo(rows, day) == SumBy(rows, (e: Dated) => if e.date <= day then e.cents else 0)
    ensures InflowOn(rows, day) == SumBy(rows, (e: Dated) => if e.date == day && e.cents > 0 then e.cents else 0)
    ensures OutflowOn(rows, day) == SumBy(rows, (e: Dated) => if e.date == day && e.cents < 0 then -e.cents else 0)
  {
    if rows != [] {
      SumsAre(rows[..|rows| - 1], day);
    }
  }

  lemma {:induction false} NextDay(rows: seq<Dated>, day: int)
    ensures SumUpTo(rows, day) == SumUpTo(rows, day - 1) + InflowOn(rows, day) - OutflowOn(rows, day)
  {
    if rows != [] {
      NextDay(rows[..|rows| - 1], day);
    }
  }

  lemma {:induction false} NothingYet(rows: seq<Dated>, day: int)
    requires forall i | 0 <= i < |rows| :: day < rows[i].date
    ensures SumUpTo(rows, day) == 0
  {
    if rows != [] {
      NothingYet(rows[..|rows| - 1], day);
    }
  }

  lemma {:induction false} SumOfConcat(a: seq<Dated>, b: seq<Dated>, day: int)
    ensures SumUpTo(a + b, day) == SumUpTo(a, day) + SumUpTo(b, day)
  {
    if b == [] {
      assert a + b == a;
    } else {
      assert (a + b)[..|a + b| - 1] == a + b[..|b| - 1];
      SumOfConcat(a, b[..|b| - 1], day);
    }
  }

  /** Taking one row out. */
  lemma SumWithoutRow(rows: seq<Dated>, i: nat, day: int)
    requires i < |rows|
    ensures var rest := rows[..i] + rows[i + 1..];
            && SumUpTo(rows, day) == SumUpTo(rest, day) + (if rows[i].date <= day then rows[i].cents else 0)
            && multiset(rows) == multiset(rest) + multiset{rows[i]}
  {
    assert rows == rows[..i + 1] + rows[i + 1..];
    SumOfConcat(rows[..i + 1], rows[i + 1..], day);
    assert rows[..i + 1] == rows[..i] + [rows[i]] && rows[..i + 1][..i] == rows[..i];
    SumOfConcat(rows[..i], rows[i + 1..], day);
  }

  /** The order of the rows does not matter. */
  lemma {:induction false} SumOfPermutation(a: seq<Dated>, b: seq<Dated>, day: int)
    requires multiset(a) == multiset(b)
    ensures SumUpTo(a, day) == SumUpTo(b, day)
    decreases |a|
  {
    if a == [] {
      assert |multiset(b)| == |b|;
    } else {
      var n := |a| - 1;
      SumWithoutRow(a, n, day);
      assert a[..n] + a[n + 1..] == a[..n] && a[n] in multiset(b);
      var i :| 0 <= i < |b| && b[i] == a[n];
      SumWithoutRow(b, i, day);
      assert multiset(a[..n]) == multiset(a) - multiset{a[n]} == multiset(b[..i] + b[i + 1..]);
      SumOfPermutation(a[..n], b[..i] + b[i + 1..], day);
    }
  }
}
