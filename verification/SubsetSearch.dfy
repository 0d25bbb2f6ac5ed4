/** The bounded depth-first search that looks for a combination of charges
    adding up to nearly the amount of one incoming payment. */
module SubsetSearch {
  import opened Common

  /** The cents found at the chosen positions, in order of choice. */
  function Gather(cents: seq<int>, chosen: seq<nat>): (bills: seq<int>)
    requires forall j | 0 <= j < |chosen| :: chosen[j] < |cents|
    ensures |bills| == |chosen| && forall j | 0 <= j < |chosen| :: bills[j] == cents[chosen[j]]
  {
    seq(|chosen|, j requires 0 <= j < |chosen| => cents[chosen[j]])
  }

  predicate Within(total: int, target: int, tolerance: int) {
    Abs(total - target) <= tolerance
  }

  /** `chosen` holds k strictly increasing positions below n. */
  ghost predicate Choice(n: nat, k: nat, chosen: seq<nat>) {
    && |chosen| == k
    && (forall j | 0 <= j < k :: chosen[j] < n)
    && (forall i, j | 0 <= i < j < k :: chosen[i] < chosen[j])
  }

  /** `chosen` is a choice of k positions whose cents come within the tolerance of the target. */
  ghost predicate Fits(cents: seq<int>, k: nat, target: int, tolerance: int, chosen: seq<nat>) {
    Choice(|cents|, k, chosen) && Within(Sum(Gather(cents, chosen)), target, tolerance)
  }

  ghost predicate NothingFits(cents: seq<int>, k: nat, target: int, tolerance: int) {
    forall chosen: seq<nat> :: !Fits(cents, k, target, tolerance, chosen)
  }

  /** `a` comes before `b` in dictionary order, or is `b` itself. */
  ghost predicate LexLeq(a: seq<nat>, b: seq<nat>) {
    a == b || exists p: nat :: p < |a| && p < |b| && a[..p] == b[..p] && a[p] < b[p]
  }

  /** `chosen` continues `prefix` with positions from `start` on. */
  ghost predicate Extends(prefix: seq<nat>, start: nat, chosen: seq<nat>) {
    prefix <= chosen && forall j | |prefix| <= j < |chosen| :: start <= chosen[j]
  }

  /** Depth-first search: take position `start`, or leave it and go on with the next one. */
  function FindSubset(cents: seq<int>, k: nat, target: int, tolerance: int,
                      start: nat, chosen: seq<nat>): (r: Option<seq<nat>>)
    requires start <= |cents| && |chosen| <= k && Choice(start, |chosen|, chosen)
    ensures r.Some? ==> Fits(cents, k, target, tolerance, r.value)
    decreases |cents| - start
  {
    if |chosen| == k then
      if Within(Sum(Gather(cents, chosen)), target, tolerance) then Some(chosen) else None
    else if start == |cents| then None
    else
      var taken := FindSubset(cents, k, target, tolerance, start + 1, chosen + [start]);
      if taken.Some? then taken else FindSubset(cents, k, target, tolerance, start + 1, chosen)
  }

  /** The search as the source runs it: a loop over the next position inside a recursion on depth. */
  method FindSubsetCents(cents: seq<int>, k: nat, target: int, tolerance: int,
                         start: nat, chosen: seq<nat>) returns (r: Option<seq<nat>>)
    requires start <= |cents| && |chosen| <= k && Choice(start, |chosen|, chosen)
    ensures r == FindSubset(cents, k, target, tolerance, start, chosen)
    decreases k - |chosen|
  {
    if |chosen| == k {
      return if Within(Sum(Gather(cents, chosen)), target, tolerance) then Some(chosen) else None;
    }
    for i := start to |cents|
      invariant FindSubset(cents, k, target, tolerance, i, chosen)
             == FindSubset(cents, k, target, tolerance, start, chosen)
    {
      r := FindSubsetCents(cents, k, target, tolerance, i + 1, chosen + [i]);
      if r.Some? {
        return r;
      }
    }
    return None;
  }

  /** At a node, a fitting continuation either takes `start` or starts beyond it. */
  lemma TakesOrLeaves(n: nat, k: nat, start: nat, chosen: seq<nat>, other: seq<nat>)
    requires |chosen| < k && Choice(n, k, other) && Extends(chosen, start, other)
    ensures start < n
    ensures other[|chosen|] == start ==> Extends(chosen + [start], start + 1, other)
    ensures other[|chosen|] != start ==> start < other[|chosen|] && Extends(chosen, start + 1, other)
  {
    var d := |chosen|;
    assert start <= other[d] < n;
    forall j | d < j < k ensures other[d] < other[j] {}
    if other[d] == start {
      assert other[..d + 1] == chosen + [start];
    }
  }

  lemma TakingComesFirst(start: nat, chosen: seq<nat>, taken: seq<nat>, other: seq<nat>)
    requires Extends(chosen + [start], start + 1, taken) && Extends(chosen, start + 1, other)
    requires |chosen| < |other|
    ensures LexLeq(taken, other)
  {
    var d := |chosen|;
    assert taken[..d + 1] == chosen + [start];
    assert taken[..d] == other[..d] && taken[d] < other[d];
  }

  /** The search below a node of the tree is complete, and finds the first fit in dictionary order. */
  lemma {:induction false} SearchBelow(cents: seq<int>, k: nat, target: int, tolerance: int,
                                       start: nat, chosen: seq<nat>)
    requires start <= |cents| && |chosen| <= k && Choice(start, |chosen|, chosen)
    ensures var r := FindSubset(cents, k, target, tolerance, start, chosen);
            r.Some? ==> Extends(chosen, start, r.value)
    ensures var r := FindSubset(cents, k, target, tolerance, start, chosen);
            forall other | Fits(cents, k, target, tolerance, other) && Extends(chosen, start, other) ::
              r.Some? && LexLeq(r.value, other)
    decreases |cents| - start
  {
    var r := FindSubset(cents, k, target, tolerance, start, chosen);
    if |chosen| == k {
      forall other | Fits(cents, k, target, tolerance, other) && Extends(chosen, start, other)
        ensures other == chosen
      {
        assert other[..k] == chosen;
      }
    } else if start < |cents| {
      SearchBelow(cents, k, target, tolerance, start + 1, chosen + [start]);
      SearchBelow(cents, k, target, tolerance, start + 1, chosen);
      SearchBranches(cents, k, target, tolerance, start, chosen);
    }
  }

  lemma SearchBranches(cents: seq<int>, k: nat, target: int, tolerance: int, start: nat, chosen: seq<nat>)
    requires start < |cents| && |chosen| < k && Choice(start, |chosen|, chosen)
    requires var taken := FindSubset(cents, k, target, tolerance, start + 1, chosen + [start]);
             && (taken.Some? ==> Extends(chosen + [start], start + 1, taken.value))
             && forall other | Fits(cents, k, target, tolerance, other)
                            && Extends(chosen + [start], start + 1, other) ::
                  taken.Some? && LexLeq(taken.value, other)
    requires var left := FindSubset(cents, k, target, tolerance, start + 1, chosen);
             && (left.Some? ==> Extends(chosen, start + 1, left.value))
             && forall other | Fits(cents, k, target, tolerance, other) && Extends(chosen, start + 1, other) ::
                  left.Some? && LexLeq(left.value, other)
    ensures var r := FindSubset(cents, k, target, tolerance, start, chosen);
            && (r.Some? ==> Extends(chosen, start, r.value))
            && forall other | Fits(cents, k, target, tolerance, other) && Extends(chosen, start, other) ::
                 r.Some? && LexLeq(r.value, other)
  {
    var taken := FindSubset(cents, k, target, tolerance, start + 1, chosen + [start]);
    var left := FindSubset(cents, k, target, tolerance, start + 1, chosen);
    var r := FindSubset(cents, k, target, tolerance, start, chosen);
    assert r == if taken.Some? then taken else left;
    if taken.Some? {
      assert taken.value[|chosen|] == (chosen + [start])[|chosen|];
    }
    hide FindSubset, LexLeq, Within, Gather;
    forall other | Fits(cents, k, target, tolerance, other) && Extends(chosen, start, other)
      ensures r.Some? && LexLeq(r.value, other)
    {
      TakesOrLeaves(|cents|, k, start, chosen, other);
      if taken.Some? && other[|chosen|] != start {
        TakingComesFirst(start, chosen, taken.value, other);
      }
    }
  }

  /** From the root: null exactly when no combination fits, else the first that does. */
  lemma FindSubsetFindsFirst(cents: seq<int>, k: nat, target: int, tolerance: int)
    ensures var r := FindSubset(cents, k, target, tolerance, 0, []);
            && (r.None? <==> NothingFits(cents, k, target, tolerance))
            && (r.Some? ==> Fits(cents, k, target, tolerance, r.value))
            && forall other | r.Some? && Fits(cents, k, target, tolerance, other) :: LexLeq(r.value, other)
  {
    SearchBelow(cents, k, target, tolerance, 0, []);
    forall other | Fits(cents, k, target, tolerance, other) ensures Extends([], 0, other) {}
  }

  /** Positive charges: any choice adds up to at most the charges before its end. */
  lemma {:induction false} ChoiceAtMostSum(cents: seq<int>, n: nat, chosen: seq<nat>)
    requires n <= |cents| && Choice(n, |chosen|, chosen)
    requires forall i | 0 <= i < |cents| :: 0 < cents[i]
    ensures 0 <= Sum(Gather(cents, chosen)) <= Sum(cents[..n])
    decreases n
  {
    if n == 0 {
    } else {
      var last := |chosen| - 1;
      assert cents[..n][..n - 1] == cents[..n - 1];
      if chosen != [] && chosen[last] == n - 1 {
        ChoiceAtMostSum(cents, n - 1, chosen[..last]);
        assert Gather(cents, chosen)[..last] == Gather(cents, chosen[..last]);
      } else {
        ChoiceAtMostSum(cents, n - 1, chosen);
      }
    }
  }
}
