/** The stable sort behind Array.prototype.sort: an element goes after everything it may follow. */
module StableSort {

  function Insert<T>(notAfter: (T, T) -> bool, e: T, sorted: seq<T>): seq<T> {
    if sorted == [] || notAfter(sorted[|sorted| - 1], e) then sorted + [e]
    else Insert(notAfter, e, sorted[..|sorted| - 1]) + [sorted[|sorted| - 1]]
  }

  function Sort<T>(notAfter: (T, T) -> bool, s: seq<T>): seq<T> {
    if s == [] then [] else Insert(notAfter, s[|s| - 1], Sort(notAfter, s[..|s| - 1]))
  }

  ghost predicate SortedBy<T>(notAfter: (T, T) -> bool, s: seq<T>) {
    forall i, j | 0 <= i < j < |s| :: notAfter(s[i], s[j])
  }

  ghost predicate TotalPreorder<T(!new)>(notAfter: (T, T) -> bool) {
    && (forall a, b :: notAfter(a, b) || notAfter(b, a))
    && (forall a, b, c :: notAfter(a, b) && notAfter(b, c) ==> notAfter(a, c))
  }

  lemma {:induction false} InsertSorts<T(!new)>(notAfter: (T, T) -> bool, e: T, sorted: seq<T>)
    requires TotalPreorder(notAfter) && SortedBy(notAfter, sorted)
    ensures SortedBy(notAfter, Insert(notAfter, e, sorted))
    ensures multiset(Insert(notAfter, e, sorted)) == multiset(sorted) + multiset{e}
  {
    if sorted == [] || notAfter(sorted[|sorted| - 1], e) {
    } else {
      var front, last := sorted[..|sorted| - 1], sorted[|sorted| - 1];
      InsertSorts(notAfter, e, front);
      var r := Insert(notAfter, e, front);
      assert Insert(notAfter, e, sorted) == r + [last] && sorted == front + [last];
      hide Insert;
      assert notAfter(e, last);
      forall x | x in r ensures notAfter(x, last) {
        assert x in multiset(r);
        assert x in front || x == e;
      }
    }
  }

  lemma {:induction false} SortSorts<T(!new)>(notAfter: (T, T) -> bool, s: seq<T>)
    requires TotalPreorder(notAfter)
    ensures SortedBy(notAfter, Sort(notAfter, s)) && multiset(Sort(notAfter, s)) == multiset(s)
  {
    if s == [] {
    } else {
      var front, last := s[..|s| - 1], s[|s| - 1];
      SortSorts(notAfter, front);
      InsertSorts(notAfter, last, Sort(notAfter, front));
      assert s == front + [last];
      assert multiset(s) == multiset(front) + multiset{last};
      assert Sort(notAfter, s) == Insert(notAfter, last, Sort(notAfter, front));
      hide *;
    }
  }

  // ----- ties keep their order

  /** The elements that neither go before `e` nor after it. */
  function Ties<T>(notAfter: (T, T) -> bool, s: seq<T>, e: T): seq<T> {
    if s == [] then []
    else
      var last := s[|s| - 1];
      Ties(notAfter, s[..|s| - 1], e) + if notAfter(last, e) && notAfter(e, last) then [last] else []
  }

  lemma TiesOfSnoc<T>(notAfter: (T, T) -> bool, s: seq<T>, x: T, e: T)
    ensures Ties(notAfter, s + [x], e)
         == Ties(notAfter, s, e) + if notAfter(x, e) && notAfter(e, x) then [x] else []
  {
    assert (s + [x])[..|s|] == s;
  }

  lemma {:induction false} InsertIsStable<T(!new)>(notAfter: (T, T) -> bool, x: T, sorted: seq<T>, e: T)
    requires TotalPreorder(notAfter)
    ensures Ties(notAfter, Insert(notAfter, x, sorted), e) == Ties(notAfter, sorted + [x], e)
  {
    TiesOfSnoc(notAfter, sorted, x, e);
    if sorted == [] || notAfter(sorted[|sorted| - 1], x) {
    } else {
      var front, last := sorted[..|sorted| - 1], sorted[|sorted| - 1];
      InsertIsStable(notAfter, x, front, e);
      TiesOfSnoc(notAfter, front, x, e);
      TiesOfSnoc(notAfter, front, last, e);
      TiesOfSnoc(notAfter, Insert(notAfter, x, front), last, e);
      assert sorted == front + [last];
      assert Insert(notAfter, x, sorted) == Insert(notAfter, x, front) + [last];
      hide Ties, Insert;
      assert !(notAfter(x, e) && notAfter(e, x) && notAfter(last, e) && notAfter(e, last));
    }
  }

  lemma {:induction false} SortIsStable<T(!new)>(notAfter: (T, T) -> bool, s: seq<T>, e: T)
    requires TotalPreorder(notAfter)
    ensures Ties(notAfter, Sort(notAfter, s), e) == Ties(notAfter, s, e)
  {
    if s == [] {
    } else {
      var front, last := s[..|s| - 1], s[|s| - 1];
      assert s == front + [last];
      assert Sort(notAfter, s) == Insert(notAfter, last, Sort(notAfter, front));
      hide *;
      SortIsStable(notAfter, front, e);
      InsertIsStable(notAfter, last, Sort(notAfter, front), e);
      TiesOfSnoc(notAfter, Sort(notAfter, front), last, e);
      TiesOfSnoc(notAfter, front, last, e);
    }
  }

  // ----- a permutation keeps keys distinct

  ghost predicate DistinctBy<T, K>(key: T -> K, s: seq<T>) {
    forall i, j | 0 <= i < j < |s| :: key(s[i]) != key(s[j])
  }

  lemma {:induction false} DistinctHoldsOnce<T, K>(key: T -> K, s: seq<T>, x: T)
    requires DistinctBy(key, s)
    ensures multiset(s)[x] <= 1
  {
    if s != [] {
      var front, last := s[..|s| - 1], s[|s| - 1];
      DistinctHoldsOnce(key, front, x);
      assert s == front + [last];
      if x == last {
        assert x !in front;
      }
    }
  }

  lemma HeldTwice<T>(s: seq<T>, i: nat, j: nat)
    requires i < j < |s| && s[i] == s[j]
    ensures multiset(s)[s[i]] >= 2
  {
    assert s == s[..j] + ([s[j]] + s[j + 1..]);
    assert s[..j][i] == s[i] && s[i] in multiset(s[..j]);
  }

  lemma DistinctByPermutation<T, K>(key: T -> K, a: seq<T>, b: seq<T>)
    requires multiset(a) == multiset(b) && DistinctBy(key, a)
    ensures DistinctBy(key, b)
  {
    forall i, j | 0 <= i < j < |b| ensures key(b[i]) != key(b[j]) {
      assert b[i] in multiset(a) && b[j] in multiset(a);
      if b[i] == b[j] {
        HeldTwice(b, i, j);
        DistinctHoldsOnce(key, a, b[i]);
      }
    }
  }
}
