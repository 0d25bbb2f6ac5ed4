/** What allocateInflow reports, in terms of the charges it is given: their dates, ids and what
    remains of them. The charges of one person carry distinct ids. */
module AllocationOutcome {
  import opened Common
  import opened StableSort
  import opened SubsetSearch
  import opened Allocation

  // ----- the vocabulary

  /** Dated earlier, or on the same day with the smaller id. */
  ghost predicate Older(a: Expense, b: Expense) {
    a.date < b.date || (a.date == b.date && a.id < b.id)
  }

  ghost predicate Outstands(expenses: seq<Expense>, e: Expense) {
    e in expenses && e.remaining > 0
  }

  /** Off by at most one dollar, or a fiftieth of the amount if that is more. */
  ghost predicate Near(cents: int, amount: int) {
    || -100 <= cents - amount <= 100
    || -(amount / 50) <= cents - amount <= amount / 50
  }

  ghost predicate OldestFirst(group: seq<Expense>) {
    forall i, j | 0 <= i < j < |group| :: Older(group[i], group[j])
  }

  /** `k` outstanding charges, oldest first, that come near the amount together. */
  ghost predicate Covers(expenses: seq<Expense>, amount: int, k: nat, group: seq<Expense>) {
    && |group| == k && OldestFirst(group)
    && (forall j | 0 <= j < k :: Outstands(expenses, group[j]))
    && Near(SumBy(group, (e: Expense) => e.remaining), amount)
  }

  /** First in dictionary order, charge by charge. */
  ghost predicate ComesFirst(a: seq<Expense>, b: seq<Expense>) {
    a == b || exists p :: 0 <= p < |a| && p < |b| && a[..p] == b[..p] && Older(a[p], b[p])
  }

  // ----- the pool and the charges

  lemma NearIsWithin(cents: int, amount: int)
    requires amount > 0
    ensures Within(cents, amount, Tolerance(amount)) <==> Near(cents, amount)
  {}

  lemma PoolIsStrict(expenses: seq<Expense>)
    requires DistinctIds(expenses)
    ensures OldestFirst(Pool(expenses))
    ensures forall e :: e in Pool(expenses) <==> Outstands(expenses, e)
  {
    var pool := Pool(expenses);
    PoolIsOpenOldestFirst(expenses);
    PoolKeeps(expenses);
    hide Pool;
    forall i, j | 0 <= i < j < |pool| ensures Older(pool[i], pool[j]) {
      assert NotAfter(pool[i], pool[j]) && pool[i].id != pool[j].id;
    }
    forall e ensures e in pool <==> Outstands(expenses, e) {
      assert e in pool <==> e in multiset(pool);
      assert e in expenses <==> e in multiset(expenses);
    }
  }

  /** In a list that is oldest first, older is earlier. */
  lemma OlderIsEarlier(pool: seq<Expense>, i: nat, j: nat)
    requires OldestFirst(pool) && i < |pool| && j < |pool|
    ensures Older(pool[i], pool[j]) <==> i < j
  {}

  // ----- a single charge

  /** The reported kind is exact when some outstanding charge comes near the amount, and then the
      oldest such charge is paid, whichever of the two amounts is less. */
  lemma ExactPaysTheOldest(amount: int, expenses: seq<Expense>)
    requires amount > 0 && DistinctIds(expenses)
    ensures AllocationFor(amount, expenses).kind == Exact
       <==> exists e :: Outstands(expenses, e) && Near(e.remaining, amount)
    ensures AllocationFor(amount, expenses).kind == Exact ==>
              exists e ::
                && Outstands(expenses, e) && Near(e.remaining, amount)
                && (forall f | Outstands(expenses, f) && Near(f.remaining, amount) :: f == e || Older(e, f))
                && var paid := if e.remaining < amount then e.remaining else amount;
                   AllocationFor(amount, expenses) == Outcome([Allocated(e.id, paid)], paid, Exact)
  {
    var pool, tolerance := Pool(expenses), Tolerance(amount);
    PoolIsStrict(expenses);
    var single := FindSingle(Remaining(pool), amount, tolerance);
    hide Pool, FindSingle, FindCombo, PayInOrder, Tolerance, Within, Near, Sum;
    forall e | Outstands(expenses, e) && Near(e.remaining, amount) ensures single.Some? {
      var i :| 0 <= i < |pool| && pool[i] == e;
      NearIsWithin(e.remaining, amount);
    }
    if single.Some? {
      var e := pool[single.value];
      NearIsWithin(e.remaining, amount);
      var paid := if e.remaining < amount then e.remaining else amount;
      OnePaymentSum([paid]);
      assert Refer(pool, [single.value], [paid]) == [Allocated(e.id, paid)];
      assert AllocationFor(amount, expenses) == Outcome([Allocated(e.id, paid)], paid, Exact);
      forall f | Outstands(expenses, f) && Near(f.remaining, amount) ensures f == e || Older(e, f) {
        var i :| 0 <= i < |pool| && pool[i] == f;
        NearIsWithin(f.remaining, amount);
        OlderIsEarlier(pool, single.value, i);
      }
    }
  }

  // ----- a combination

  /** The charges at the chosen positions. */
  ghost function At(pool: seq<Expense>, chosen: seq<nat>): (group: seq<Expense>)
    requires forall j | 0 <= j < |chosen| :: chosen[j] < |pool|
    ensures |group| == |chosen| && forall j | 0 <= j < |chosen| :: group[j] == pool[chosen[j]]
  {
    seq(|chosen|, j requires 0 <= j < |chosen| => pool[chosen[j]])
  }

  lemma {:induction false} RemainingSums(group: seq<Expense>)
    ensures Sum(Remaining(group)) == SumBy(group, (e: Expense) => e.remaining)
  {
    if group != [] {
      var front := group[..|group| - 1];
      RemainingSums(front);
      assert Remaining(group)[..|group| - 1] == Remaining(front);
    }
  }

  /** Positions that fit are a group that covers the amount, */
  lemma FittingCovers(amount: int, expenses: seq<Expense>, k: nat, chosen: seq<nat>)
    requires amount > 0 && DistinctIds(expenses)
    requires Choice(|Pool(expenses)|, k, chosen)
    ensures Fits(Remaining(Pool(expenses)), k, amount, Tolerance(amount), chosen)
       <==> Covers(expenses, amount, k, At(Pool(expenses), chosen))
  {
    var pool := Pool(expenses);
    PoolIsStrict(expenses);
    hide Pool, Near, Within, Tolerance, Sum, SumBy, Older;
    var group := At(pool, chosen);
    assert Gather(Remaining(pool), chosen) == Remaining(group);
    RemainingSums(group);
    NearIsWithin(Sum(Remaining(group)), amount);
    forall i, j | 0 <= i < j < |group| ensures Older(group[i], group[j]) {
      assert chosen[i] < chosen[j];
    }
  }

  /** and every group that covers the amount is found at such positions. */
  lemma CoveringIsFound(amount: int, expenses: seq<Expense>, k: nat, group: seq<Expense>) returns (chosen: seq<nat>)
    requires amount > 0 && DistinctIds(expenses) && Covers(expenses, amount, k, group)
    ensures Fits(Remaining(Pool(expenses)), k, amount, Tolerance(amount), chosen)
    ensures group == At(Pool(expenses), chosen)
  {
    var pool := Pool(expenses);
    PoolIsStrict(expenses);
    hide Pool, Near, SumBy, Tolerance, Fits;
    chosen := PositionsOf(pool, group);
    forall i, j | 0 <= i < j < k ensures chosen[i] < chosen[j] {
      OlderIsEarlier(pool, chosen[i], chosen[j]);
    }
    assert group == At(pool, chosen);
    FittingCovers(amount, expenses, k, chosen);
  }

  lemma {:induction false} PositionsOf(pool: seq<Expense>, group: seq<Expense>) returns (chosen: seq<nat>)
    requires forall j | 0 <= j < |group| :: group[j] in pool
    ensures |chosen| == |group|
    ensures forall j | 0 <= j < |group| :: chosen[j] < |pool| && pool[chosen[j]] == group[j]
  {
    if group == [] {
      chosen := [];
    } else {
      var front := PositionsOf(pool, group[..|group| - 1]);
      var i :| 0 <= i < |pool| && pool[i] == group[|group| - 1];
      chosen := front + [i];
    }
  }

  /** Dictionary order of positions is dictionary order of the charges there. */
  lemma PositionsCompare(pool: seq<Expense>, a: seq<nat>, b: seq<nat>)
    requires OldestFirst(pool) && Choice(|pool|, |a|, a) && Choice(|pool|, |b|, b) && LexLeq(a, b)
    ensures ComesFirst(At(pool, a), At(pool, b))
  {
    if a != b {
      var p: nat :| p < |a| && p < |b| && a[..p] == b[..p] && a[p] < b[p];
      forall j | 0 <= j < p ensures At(pool, a)[j] == At(pool, b)[j] {
        assert a[j] == a[..p][j] == b[..p][j] == b[j];
      }
      assert At(pool, a)[..p] == At(pool, b)[..p];
      OlderIsEarlier(pool, a[p], b[p]);
    }
  }

  /** Every charge of the group is paid, all but the last in full, up to the amount. */
  ghost predicate Settles(o: Outcome, group: seq<Expense>, amount: int) {
    var worth := SumBy(group, (e: Expense) => e.remaining);
    && |o.allocations| == |group|
    && (forall j | 0 <= j < |group| ::
          o.allocations[j].id == group[j].id && 0 < o.allocations[j].cents <= group[j].remaining)
    && (forall j | 0 <= j < |group| - 1 :: o.allocations[j].cents == group[j].remaining)
    && o.matched == if worth < amount then worth else amount
  }

  /** The oldest combination of k charges, charge by charge, is the one settled. */
  ghost predicate SettlesTheFirst(o: Outcome, expenses: seq<Expense>, amount: int, group: seq<Expense>) {
    && 2 <= |group| <= 3 && Covers(expenses, amount, |group|, group)
    && (|group| == 3 ==> forall pair :: !Covers(expenses, amount, 2, pair))
    && (forall other | Covers(expenses, amount, |group|, other) :: ComesFirst(group, other))
    && Settles(o, group, amount)
  }

  /** With no single charge near the amount, the kind is subset when some two or three are
      together; a pair is preferred, and of those the first in dictionary order is settled. */
  lemma SubsetSettlesTheFirst(amount: int, expenses: seq<Expense>)
    requires amount > 0 && DistinctIds(expenses)
    ensures var o := AllocationFor(amount, expenses);
            o.kind == Subset <==>
              && (forall e | Outstands(expenses, e) :: !Near(e.remaining, amount))
              && exists group :: 2 <= |group| <= 3 && Covers(expenses, amount, |group|, group)
    ensures var o := AllocationFor(amount, expenses);
            o.kind == Subset ==> exists group :: SettlesTheFirst(o, expenses, amount, group)
  {
    hide *;
    KindOfPlan(amount, expenses);
    PoolKeeps(expenses);
    ExactPaysTheOldest(amount, expenses);
    SubsetWhenFound(amount, expenses);
    if AllocationFor(amount, expenses).kind == Subset {
      var group := FirstIsSettled(amount, expenses);
    }
  }

  lemma KindOfPlan(amount: int, expenses: seq<Expense>)
    ensures AllocationFor(amount, expenses).kind == PlanFor(amount, Remaining(Pool(expenses))).kind
  {
    hide PlanFor, Pool;
  }

  lemma SubsetWhenFound(amount: int, expenses: seq<Expense>)
    requires amount > 0 && DistinctIds(expenses)
    ensures var cents := Remaining(Pool(expenses));
            PlanFor(amount, cents).kind == Subset <==>
              && PlanFor(amount, cents).kind != Exact
              && exists group :: 2 <= |group| <= 3 && Covers(expenses, amount, |group|, group)
  {
    var pool, tolerance := Pool(expenses), Tolerance(amount);
    var cents := Remaining(pool);
    PoolKeeps(expenses);
    hide Pool, Covers, PlanFor, Fits, Choice;
    KindMeans(amount, cents);
    hide Within, Tolerance, Sum, Remaining;
    forall group | 2 <= |group| <= 3 && Covers(expenses, amount, |group|, group)
      ensures !NothingFits(cents, 2, amount, tolerance) || !NothingFits(cents, 3, amount, tolerance)
    {
      var chosen := CoveringIsFound(amount, expenses, |group|, group);
    }
    forall k: nat, chosen | 2 <= k <= 3 && Fits(cents, k, amount, tolerance, chosen)
      ensures exists group :: 2 <= |group| <= 3 && Covers(expenses, amount, |group|, group)
    {
      FitsIsChoice(cents, k, amount, tolerance, chosen);
      ChoiceStays(|cents|, k, chosen);
      FittingCovers(amount, expenses, k, chosen);
      assert Covers(expenses, amount, |At(pool, chosen)|, At(pool, chosen));
    }
  }

  lemma ChoiceStays(n: nat, k: nat, chosen: seq<nat>)
    requires Choice(n, k, chosen)
    ensures |chosen| == k && forall j | 0 <= j < k :: chosen[j] < n
  {}

  lemma SubsetOutcome(amount: int, expenses: seq<Expense>) returns (chosen: seq<nat>, paid: seq<int>)
    requires amount > 0 && AllocationFor(amount, expenses).kind == Subset
    ensures var pool, tolerance := Pool(expenses), Tolerance(amount);
            var cents, k := Remaining(pool), |chosen|;
            && 2 <= k <= 3 && |paid| == k
            && Choice(|cents|, k, chosen) && Fits(cents, k, amount, tolerance, chosen)
            && (forall other | Fits(cents, k, amount, tolerance, other) :: LexLeq(chosen, other))
            && (k == 3 ==> NothingFits(cents, 2, amount, tolerance))
            && (forall j | 0 <= j < k :: 0 < paid[j] <= cents[chosen[j]])
            && (forall j | 0 <= j < k - 1 :: paid[j] == cents[chosen[j]])
            && AllocationFor(amount, expenses)
               == Outcome(Refer(pool, chosen, paid), Min(amount, Sum(Gather(cents, chosen))), Subset)
  {
    var cents := Remaining(Pool(expenses));
    PoolKeeps(expenses);
    hide Pool, PlanFor, Fits, NothingFits, LexLeq, Sum;
    chosen, paid := PlanFor(amount, cents).chosen, PlanFor(amount, cents).paid;
    CombinationBranch(amount, cents);
    FitsIsChoice(cents, |chosen|, amount, Tolerance(amount), chosen);
    hide Tolerance;
  }

  lemma FirstIsSettled(amount: int, expenses: seq<Expense>) returns (group: seq<Expense>)
    requires amount > 0 && DistinctIds(expenses) && AllocationFor(amount, expenses).kind == Subset
    ensures SettlesTheFirst(AllocationFor(amount, expenses), expenses, amount, group)
  {
    hide *;
    var pool, tolerance := Pool(expenses), Tolerance(amount);
    var cents := Remaining(pool);
    var chosen, paid := SubsetOutcome(amount, expenses);
    ChoiceStays(|cents|, |chosen|, chosen);
    group := At(pool, chosen);
    FittingCovers(amount, expenses, |chosen|, chosen);
    FirstComesFirst(amount, expenses, chosen);
    if |chosen| == 3 {
      NoPairCovers(amount, expenses);
    }
    ReferSettles(amount, pool, chosen, paid);
    Assembled(AllocationFor(amount, expenses), expenses, amount, group);
  }

  lemma Assembled(o: Outcome, expenses: seq<Expense>, amount: int, group: seq<Expense>)
    requires 2 <= |group| <= 3 && Covers(expenses, amount, |group|, group)
    requires |group| == 3 ==> forall pair :: !Covers(expenses, amount, 2, pair)
    requires forall other | Covers(expenses, amount, |group|, other) :: ComesFirst(group, other)
    requires Settles(o, group, amount)
    ensures SettlesTheFirst(o, expenses, amount, group)
  {
    hide Covers, ComesFirst, Settles;
  }

  lemma ReferSettles(amount: int, pool: seq<Expense>, chosen: seq<nat>, paid: seq<int>)
    requires |paid| == |chosen| && forall j | 0 <= j < |chosen| :: chosen[j] < |pool|
    requires forall j | 0 <= j < |chosen| :: 0 < paid[j] <= Remaining(pool)[chosen[j]]
    requires forall j | 0 <= j < |chosen| - 1 :: paid[j] == Remaining(pool)[chosen[j]]
    ensures var o := Outcome(Refer(pool, chosen, paid), Min(amount, Sum(Gather(Remaining(pool), chosen))), Subset);
            Settles(o, At(pool, chosen), amount)
  {
    var group := At(pool, chosen);
    hide Sum, SumBy;
    assert Gather(Remaining(pool), chosen) == Remaining(group);
    RemainingSums(group);
  }

  lemma FirstComesFirst(amount: int, expenses: seq<Expense>, chosen: seq<nat>)
    requires amount > 0 && DistinctIds(expenses)
    requires var cents := Remaining(Pool(expenses));
             && Choice(|cents|, |chosen|, chosen)
             && forall other | Fits(cents, |chosen|, amount, Tolerance(amount), other) :: LexLeq(chosen, other)
    ensures forall other | Covers(expenses, amount, |chosen|, other) :: ComesFirst(At(Pool(expenses), chosen), other)
  {
    var pool := Pool(expenses);
    PoolIsStrict(expenses);
    hide Pool, Covers, Fits, ComesFirst, LexLeq, Older, OldestFirst, Tolerance, Outstands;
    forall other | Covers(expenses, amount, |chosen|, other) ensures ComesFirst(At(pool, chosen), other) {
      var there := CoveringIsFound(amount, expenses, |chosen|, other);
      FitsIsChoice(Remaining(pool), |chosen|, amount, Tolerance(amount), there);
      PositionsCompare(pool, chosen, there);
    }
  }

  lemma NoPairCovers(amount: int, expenses: seq<Expense>)
    requires amount > 0 && DistinctIds(expenses)
    requires NothingFits(Remaining(Pool(expenses)), 2, amount, Tolerance(amount))
    ensures forall pair :: !Covers(expenses, amount, 2, pair)
  {
    hide Pool, Covers, Fits, Tolerance;
    forall pair ensures !Covers(expenses, amount, 2, pair) {
      if Covers(expenses, amount, 2, pair) {
        var there := CoveringIsFound(amount, expenses, 2, pair);
      }
    }
  }

  lemma FitsIsChoice(cents: seq<int>, k: nat, target: int, tolerance: int, chosen: seq<nat>)
    requires Fits(cents, k, target, tolerance, chosen)
    ensures Choice(|cents|, k, chosen)
  {}

  // ----- oldest first

  /** The j-th charge paid: every older outstanding charge is paid in full before it. */
  ghost predicate PaidInTurn(expenses: seq<Expense>, allocations: seq<Allocated>, j: nat)
    requires j < |allocations|
  {
    exists e ::
      && Outstands(expenses, e) && e.id == allocations[j].id && 0 < allocations[j].cents <= e.remaining
      && forall f | Outstands(expenses, f) && Older(f, e) ::
           exists i :: 0 <= i < j && allocations[i] == Allocated(f.id, f.remaining)
  }

  /** When neither fits, the amount is spent oldest first: whatever is paid, every older
      outstanding charge has been paid in full before, and as much is matched as there is. */
  lemma GreedyPaysOldestFirst(amount: int, expenses: seq<Expense>)
    requires amount > 0 && DistinctIds(expenses)
    requires AllocationFor(amount, expenses).kind !in {Exact, Subset}
    ensures var allocations := AllocationFor(amount, expenses).allocations;
            forall j | 0 <= j < |allocations| :: PaidInTurn(expenses, allocations, j)
    ensures var o := AllocationFor(amount, expenses);
            var owing := SumBy(expenses, (e: Expense) => if e.remaining > 0 then e.remaining else 0);
            var over := amount - owing > 100 && amount - owing > amount / 50;
            && o.matched == (if owing < amount then owing else amount)
            && (o.kind == Over <==> over)
            && (o.kind == Multi <==> !over && |o.allocations| > 1)
            && (o.kind == Partial <==> !over && |o.allocations| == 1)
            && (o.kind == Person <==> !over && |o.allocations| == 0)
  {
    hide *;
    var pool := Pool(expenses);
    var paid := GreedyOutcome(amount, expenses);
    PoolIsStrict(expenses);
    PoolKeeps(expenses);
    OutstandingAddsUp(expenses);
    PoolInTurn(amount, expenses, pool, paid);
    GreedyKinds(amount, Outstanding(expenses), |paid|);
  }

  lemma GreedyOutcome(amount: int, expenses: seq<Expense>) returns (paid: seq<int>)
    requires amount > 0 && AllocationFor(amount, expenses).kind !in {Exact, Subset}
    ensures var pool := Pool(expenses);
            var cents := Remaining(pool);
            && PaidInOrder(cents, amount, paid)
            && AllocationFor(amount, expenses)
               == Outcome(Refer(pool, Positions(|pool|), paid), if Sum(cents) < amount then Sum(cents) else amount,
                          GreedyKind(amount, Sum(cents), |paid|))
  {
    var cents := Remaining(Pool(expenses));
    PoolKeeps(expenses);
    hide Pool, PaidInOrder;
    GreedyBranch(amount, cents);
    paid := PlanFor(amount, cents).paid;
    hide FindSingle, FindCombo, PayInOrder, Sum;
  }

  lemma GreedyKinds(amount: int, owing: int, count: nat)
    requires amount > 0
    ensures var kind, over := GreedyKind(amount, owing, count), amount - owing > 100 && amount - owing > amount / 50;
            && (kind == Over <==> over)
            && (kind == Multi <==> !over && count > 1)
            && (kind == Partial <==> !over && count == 1)
            && (kind == Person <==> !over && count == 0)
  {}

  lemma PoolInTurn(amount: int, expenses: seq<Expense>, pool: seq<Expense>, paid: seq<int>)
    requires OldestFirst(pool) && forall e :: e in pool <==> Outstands(expenses, e)
    requires PaidInOrder(Remaining(pool), amount, paid)
    ensures var allocations := Refer(pool, Positions(|pool|), paid);
            |allocations| == |paid| && forall j | 0 <= j < |allocations| :: PaidInTurn(expenses, allocations, j)
  {
    var allocations := Refer(pool, Positions(|pool|), paid);
    hide Older, Sum, Outstands;
    forall j | 0 <= j < |allocations| ensures PaidInTurn(expenses, allocations, j) {
      assert pool[j] in pool;
      forall f | Outstands(expenses, f) && Older(f, pool[j])
        ensures exists i :: 0 <= i < j && allocations[i] == Allocated(f.id, f.remaining)
      {
        var i :| 0 <= i < |pool| && pool[i] == f;
        OlderIsEarlier(pool, i, j);
        assert allocations[i] == Allocated(f.id, f.remaining);
      }
    }
  }

  lemma {:induction false} OutstandingAddsUp(expenses: seq<Expense>)
    ensures Outstanding(expenses) == SumBy(expenses, (e: Expense) => if e.remaining > 0 then e.remaining else 0)
  {
    if expenses != [] {
      OutstandingAddsUp(expenses[..|expenses| - 1]);
    }
  }
}
