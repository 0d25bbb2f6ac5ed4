/** Settling one incoming payment against a person's outstanding charges: a near-exact single
    charge, else a combination of two or three, else oldest first. Money is in whole cents; an
    id or a date is the integer rank its collation order gives it. */
module Allocation {
  import opened Common
  import opened StableSort
  import opened SubsetSearch

  /** A fronted expense: `cents` is negative, `remaining` is what is still outstanding. */
  datatype Expense = Expense(id: nat, date: int, cents: int, remaining: int)

  datatype Kind = Exact | Subset | Over | Multi | Partial | Person

  datatype Allocated = Allocated(id: nat, cents: int)

  datatype Outcome = Outcome(allocations: seq<Allocated>, matched: int, kind: Kind)

  // ----- the pool of open charges, oldest first

  predicate NotAfter(a: Expense, b: Expense) {
    a.date < b.date || (a.date == b.date && a.id <= b.id)
  }

  function Open(expenses: seq<Expense>): seq<Expense> {
    if expenses == [] then []
    else
      var last := expenses[|expenses| - 1];
      Open(expenses[..|expenses| - 1]) + if last.remaining > 0 then [last] else []
  }

  /** The open charges, oldest first. */
  function Pool(expenses: seq<Expense>): seq<Expense> {
    Sort(NotAfter, Open(expenses))
  }

  function Remaining(pool: seq<Expense>): (cents: seq<int>)
    ensures |cents| == |pool| && forall i | 0 <= i < |pool| :: cents[i] == pool[i].remaining
  {
    seq(|pool|, i requires 0 <= i < |pool| => pool[i].remaining)
  }

  lemma {:induction false} OpenKeeps(expenses: seq<Expense>)
    ensures forall e :: multiset(Open(expenses))[e] == if e.remaining > 0 then multiset(expenses)[e] else 0
  {
    if expenses == [] {
    } else {
      OpenKeeps(expenses[..|expenses| - 1]);
      assert expenses == expenses[..|expenses| - 1] + [expenses[|expenses| - 1]];
    }
  }

  /** The pool holds exactly the open charges, oldest first, with ties broken by id. */
  lemma PoolIsOpenOldestFirst(expenses: seq<Expense>)
    ensures SortedBy(NotAfter, Pool(expenses))
    ensures forall e :: multiset(Pool(expenses))[e] == if e.remaining > 0 then multiset(expenses)[e] else 0
    ensures forall i | 0 <= i < |Pool(expenses)| :: Pool(expenses)[i] in expenses && Pool(expenses)[i].remaining > 0
  {
    OpenKeeps(expenses);
    SortSorts(NotAfter, Open(expenses));
    forall i | 0 <= i < |Pool(expenses)|
      ensures Pool(expenses)[i] in expenses && Pool(expenses)[i].remaining > 0
    {
      assert Pool(expenses)[i] in multiset(Pool(expenses));
      assert Pool(expenses)[i] in multiset(expenses);
    }
  }

  // ----- the plan: which positions of the pool are paid, and how much

  /** Charge chosen[j] is paid paid[j]; chosen charges beyond |paid| get nothing. */
  datatype Plan = Plan(kind: Kind, chosen: seq<nat>, paid: seq<int>)

  function Tolerance(amount: int): int {
    Max(100, amount / 50)
  }

  /** The first charge within the tolerance of the amount. */
  function FindSingle(cents: seq<int>, amount: int, tolerance: int): (r: Option<nat>)
    ensures r.Some? ==> r.value < |cents| && Within(cents[r.value], amount, tolerance)
    ensures r.Some? ==> forall i | 0 <= i < r.value :: !Within(cents[i], amount, tolerance)
    ensures r.None? ==> forall i | 0 <= i < |cents| :: !Within(cents[i], amount, tolerance)
  {
    if cents == [] then None
    else
      var front := FindSingle(cents[..|cents| - 1], amount, tolerance);
      if front.Some? then front
      else if Within(cents[|cents| - 1], amount, tolerance) then Some(|cents| - 1)
      else None
  }

  /** The first pair that fits, or else the first triple. */
  function FindCombo(cents: seq<int>, amount: int, tolerance: int): (r: Option<seq<nat>>)
    ensures r.Some? ==> 2 <= |r.value| <= 3 && Fits(cents, |r.value|, amount, tolerance, r.value)
  {
    var pair := if 2 <= |cents| then FindSubset(cents, 2, amount, tolerance, 0, []) else None;
    if pair.Some? then pair
    else if 3 <= |cents| then FindSubset(cents, 3, amount, tolerance, 0, [])
    else None
  }

  function Positions(n: nat): (chosen: seq<nat>)
    ensures |chosen| == n && forall j | 0 <= j < n :: chosen[j] == j
  {
    seq(n, i => i)
  }

  /** Pay the bills in order, out of `amount`, while anything is left of it. */
  function PayInOrder(bills: seq<int>, amount: int): (paid: seq<int>)
    ensures |paid| <= |bills|
  {
    if bills == [] then []
    else
      var before := PayInOrder(bills[..|bills| - 1], amount);
      var take := Min(bills[|bills| - 1], amount - Sum(before));
      if take > 0 then before + [take] else before
  }

  function GreedyKind(amount: int, outstanding: int, count: nat): Kind {
    if amount > outstanding + Tolerance(amount) then Over
    else if count > 1 then Multi
    else if count == 1 then Partial
    else Person
  }

  function PlanFor(amount: int, cents: seq<int>): (plan: Plan)
    ensures |plan.paid| <= |plan.chosen| && forall j | 0 <= j < |plan.chosen| :: plan.chosen[j] < |cents|
  {
    var tolerance := Tolerance(amount);
    var single := FindSingle(cents, amount, tolerance);
    if single.Some? then Plan(Exact, [single.value], [Min(cents[single.value], amount)])
    else
      var combo := FindCombo(cents, amount, tolerance);
      if combo.Some? then Plan(Subset, combo.value, PayInOrder(Gather(cents, combo.value), amount))
      else
        var paid := PayInOrder(cents, amount);
        Plan(GreedyKind(amount, Sum(cents), |paid|), Positions(|cents|), paid)
  }

  function Refer(pool: seq<Expense>, chosen: seq<nat>, paid: seq<int>): (allocations: seq<Allocated>)
    requires |paid| <= |chosen| && forall j | 0 <= j < |paid| :: chosen[j] < |pool|
    ensures |allocations| == |paid|
    ensures forall j | 0 <= j < |paid| :: allocations[j] == Allocated(pool[chosen[j]].id, paid[j])
  {
    seq(|paid|, j requires 0 <= j < |paid| => Allocated(pool[chosen[j]].id, paid[j]))
  }

  /** The outcome reported for an inflow of `amount` cents. */
  function AllocationFor(amount: int, expenses: seq<Expense>): Outcome {
    var pool := Pool(expenses);
    var plan := PlanFor(amount, Remaining(pool));
    Outcome(Refer(pool, plan.chosen, plan.paid), Sum(plan.paid), plan.kind)
  }

  // ----- paying in order

  /** `paid` pays a prefix of the bills: each in full except perhaps the last, and all of them
      in full unless the whole amount is spent. */
  ghost predicate PaidInOrder(bills: seq<int>, amount: int, paid: seq<int>) {
    && |paid| <= |bills|
    && (forall j | 0 <= j < |paid| :: 0 < paid[j] <= bills[j])
    && (forall j | 0 <= j < |paid| - 1 :: paid[j] == bills[j])
    && (Sum(paid) != amount ==> |paid| == |bills| && forall j | 0 <= j < |paid| :: paid[j] == bills[j])
  }

  lemma {:induction false} PayInOrderSums(bills: seq<int>, amount: int)
    requires 0 <= amount && forall i | 0 <= i < |bills| :: 0 < bills[i]
    ensures Sum(PayInOrder(bills, amount)) == Min(amount, Sum(bills))
    ensures 0 <= Sum(bills)
  {
    if bills == [] {
    } else {
      var front, last := bills[..|bills| - 1], bills[|bills| - 1];
      PayInOrderSums(front, amount);
      var before := PayInOrder(front, amount);
      var take := Min(last, amount - Sum(before));
      assert PayInOrder(bills, amount) == if take > 0 then before + [take] else before;
      SumOfSnoc(before, take);
    }
  }

  lemma SumOfSnoc(s: seq<int>, x: int)
    ensures Sum(s + [x]) == Sum(s) + x
  {
    assert (s + [x])[..|s|] == s;
  }

  lemma {:induction false} PayInOrderPays(bills: seq<int>, amount: int)
    requires 0 <= amount && forall i | 0 <= i < |bills| :: 0 < bills[i]
    ensures PaidInOrder(bills, amount, PayInOrder(bills, amount))
  {
    if bills == [] {
    } else {
      var front := bills[..|bills| - 1];
      PayInOrderPays(front, amount);
      PayInOrderSums(front, amount);
      PaysOneMore(bills, amount, PayInOrder(front, amount), PayInOrder(bills, amount));
    }
  }

  lemma PaysOneMore(bills: seq<int>, amount: int, before: seq<int>, paid: seq<int>)
    requires bills != [] && 0 < bills[|bills| - 1]
    requires PaidInOrder(bills[..|bills| - 1], amount, before) && Sum(before) <= amount
    requires var take := Min(bills[|bills| - 1], amount - Sum(before));
             paid == if take > 0 then before + [take] else before
    ensures PaidInOrder(bills, amount, paid)
  {
    SumOfSnoc(before, Min(bills[|bills| - 1], amount - Sum(before)));
    hide Sum;
  }

  lemma NothingPaid(bills: seq<int>, amount: int)
    ensures PayInOrder(bills[..0], amount) == [] && Sum([]) == 0
  {}

  /** One more bill: what a turn of a paying loop does. */
  lemma PayOneMore(bills: seq<int>, i: nat, amount: int)
    requires i < |bills|
    ensures var before, after := PayInOrder(bills[..i], amount), PayInOrder(bills[..i + 1], amount);
            var take := Min(bills[i], amount - Sum(before));
            after == (if take > 0 then before + [take] else before)
            && Sum(after) == Sum(before) + Max(0, take)
  {
    assert bills[..i + 1][..i] == bills[..i];
    var before := PayInOrder(bills[..i], amount);
    SumOfSnoc(before, Min(bills[i], amount - Sum(before)));
  }

  /** A prefix already spends everything: the bills after it get nothing. */
  lemma {:induction false} SpentPaysNothing(bills: seq<int>, m: nat, amount: int)
    requires m <= |bills| && Sum(PayInOrder(bills[..m], amount)) == amount
    ensures PayInOrder(bills, amount) == PayInOrder(bills[..m], amount)
  {
    if m == |bills| {
      assert bills[..m] == bills;
    } else {
      var front := bills[..|bills| - 1];
      assert front[..m] == bills[..m];
      SpentPaysNothing(front, m, amount);
    }
  }

  // ----- the allocation as the source runs it

  ghost predicate Referred(pool: seq<Expense>, chosen: seq<nat>, paid: seq<int>, allocations: seq<Allocated>) {
    && |allocations| == |paid| <= |chosen|
    && forall j | 0 <= j < |paid| ::
         chosen[j] < |pool| && allocations[j] == Allocated(pool[chosen[j]].id, paid[j])
  }

  /** Pay the charges of a combination, spending `left` one charge at a time. */
  method PayCombination(pool: seq<Expense>, chosen: seq<nat>, amount: int)
    returns (allocations: seq<Allocated>, left: int)
    requires forall i | 0 <= i < |pool| :: 0 < pool[i].remaining
    requires forall j | 0 <= j < |chosen| :: chosen[j] < |pool|
    ensures var paid := PayInOrder(Gather(Remaining(pool), chosen), amount);
            Referred(pool, chosen, paid, allocations) && left == amount - Sum(paid)
  {
    hide PayInOrder, Sum;
    left, allocations := amount, [];
    ghost var bills := Gather(Remaining(pool), chosen);
    NothingPaid(bills, amount);
    for j := 0 to |chosen|
      invariant left == amount - Sum(PayInOrder(bills[..j], amount))
      invariant left <= 0 || |PayInOrder(bills[..j], amount)| == j
      invariant Referred(pool, chosen, PayInOrder(bills[..j], amount), allocations)
    {
      PayOneMore(bills, j, amount);
      var take := Min(pool[chosen[j]].remaining, left);
      if take > 0 {
        allocations := allocations + [Allocated(pool[chosen[j]].id, take)];
        left := left - take;
      }
    }
    assert bills[..|chosen|] == bills;
  }

  /** Pay the whole pool oldest first, until the payment is spent. */
  method PayOldestFirst(pool: seq<Expense>, amount: int)
    returns (allocations: seq<Allocated>, left: int)
    requires forall i | 0 <= i < |pool| :: 0 < pool[i].remaining
    ensures var paid := PayInOrder(Remaining(pool), amount);
            Referred(pool, Positions(|pool|), paid, allocations) && left == amount - Sum(paid)
  {
    hide PayInOrder, Sum;
    left, allocations := amount, [];
    ghost var bills := Remaining(pool);
    var i := 0;
    NothingPaid(bills, amount);
    while i < |pool| && left != 0
      invariant 0 <= i <= |pool|
      invariant left == amount - Sum(PayInOrder(bills[..i], amount))
      invariant left <= 0 || |PayInOrder(bills[..i], amount)| == i
      invariant Referred(pool, Positions(|pool|), PayInOrder(bills[..i], amount), allocations)
    {
      PayOneMore(bills, i, amount);
      var take := Min(pool[i].remaining, left);
      if take > 0 {
        allocations := allocations + [Allocated(pool[i].id, take)];
        left := left - take;
      }
      i := i + 1;
    }
    if i == |pool| {
      assert bills[..i] == bills;
    } else {
      SpentPaysNothing(bills, i, amount);
    }
  }

  /** Stage by stage: one charge, then a pair or a triple, then oldest first. */
  method AllocateInflow(amount: int, expenses: seq<Expense>) returns (o: Outcome)
    ensures o == AllocationFor(amount, expenses)
  {
    hide FindSubset, PayInOrder, Sum, Sort, Open, Outstanding;
    PoolKeeps(expenses);
    var pool := Pool(expenses);
    var cents := Remaining(pool);
    var tolerance := Tolerance(amount);
    var outstanding := Sum(cents);
    var single := FindSingle(cents, amount, tolerance);
    if single.Some? {
      var paid := Min(cents[single.value], amount);
      OnePaymentSum([paid]);
      assert Refer(pool, [single.value], [paid]) == [Allocated(pool[single.value].id, paid)];
      return Outcome([Allocated(pool[single.value].id, paid)], paid, Exact);
    }
    var k := 2;
    while k <= 3 && k <= |pool|
      invariant 2 <= k <= 4
      invariant forall tried: nat | 2 <= tried < k && tried <= |pool| ::
                  FindSubset(cents, tried, amount, tolerance, 0, []).None?
    {
      var combo := FindSubsetCents(cents, k, amount, tolerance, 0, []);
      if combo.Some? {
        assert combo == FindCombo(cents, amount, tolerance);
        var allocations, left := PayCombination(pool, combo.value, amount);
        return Outcome(allocations, amount - left, Subset);
      }
      k := k + 1;
    }
    assert FindCombo(cents, amount, tolerance).None?;
    var allocations, left := PayOldestFirst(pool, amount);
    return Outcome(allocations, amount - left, GreedyKind(amount, outstanding, |allocations|));
  }

  // ----- the combination branch

  lemma {:induction false} ChoiceNeedsRoom(n: nat, k: nat, chosen: seq<nat>)
    requires Choice(n, k, chosen)
    ensures k <= n
    decreases k
  {
    if k > 0 {
      ChoiceNeedsRoom(chosen[k - 1], k - 1, chosen[..k - 1]);
    }
  }

  /** The search tries every pair before any triple, and answers null only when none fits. */
  lemma FindComboIsExhaustive(cents: seq<int>, amount: int, tolerance: int)
    ensures var r := FindCombo(cents, amount, tolerance);
            && (r.None? <==> NothingFits(cents, 2, amount, tolerance) && NothingFits(cents, 3, amount, tolerance))
            && (r.Some? && |r.value| == 3 ==> NothingFits(cents, 2, amount, tolerance))
            && forall other | r.Some? && Fits(cents, |r.value|, amount, tolerance, other) :: LexLeq(r.value, other)
  {
    FindSubsetFindsFirst(cents, 2, amount, tolerance);
    FindSubsetFindsFirst(cents, 3, amount, tolerance);
    forall k, other | 2 <= k <= 3 && Fits(cents, k, amount, tolerance, other) ensures k <= |cents| {
      ChoiceNeedsRoom(|cents|, k, other);
    }
  }

  lemma NoSingleFits(cents: seq<int>, amount: int, tolerance: int)
    requires forall i | 0 <= i < |cents| :: !Within(cents[i], amount, tolerance)
    ensures NothingFits(cents, 1, amount, tolerance)
  {
    forall other | Choice(|cents|, 1, other) ensures Sum(Gather(cents, other)) == cents[other[0]] {
      assert Gather(cents, other)[..0] == [];
    }
  }

  /** When no smaller combination fits, every proper part of a fitting one falls short of the
      amount by more than the tolerance. */
  lemma {:induction false} ProperPartsFallShort(cents: seq<int>, k: nat, amount: int, tolerance: int,
                                                chosen: seq<nat>, j: nat)
    requires forall i | 0 <= i < |cents| :: 0 < cents[i]
    requires Fits(cents, k, amount, tolerance, chosen)
    requires forall smaller: nat | 1 <= smaller < k :: NothingFits(cents, smaller, amount, tolerance)
    requires 1 <= j < k
    ensures Sum(Gather(cents, chosen)[..j]) < amount - tolerance
    ensures Sum(Gather(cents, chosen)[..j]) < Sum(Gather(cents, chosen))
    decreases k - j
  {
    var bills := Gather(cents, chosen);
    SumOfTake(bills, j);
    hide Sum;
    if j + 1 == k {
      assert bills[..k] == bills;
    } else {
      ProperPartsFallShort(cents, k, amount, tolerance, chosen, j + 1);
    }
    var part := chosen[..j];
    assert NothingFits(cents, j, amount, tolerance) && Choice(|cents|, j, part);
    assert !Fits(cents, j, amount, tolerance, part);
    assert Gather(cents, part) == bills[..j];
  }

  /** Hence paying a fitting combination in order reaches every charge in it. */
  lemma ComboSettles(cents: seq<int>, k: nat, amount: int, tolerance: int, chosen: seq<nat>)
    requires forall i | 0 <= i < |cents| :: 0 < cents[i]
    requires 0 < amount && 0 <= tolerance && 1 <= k
    requires Fits(cents, k, amount, tolerance, chosen)
    requires forall smaller: nat | 1 <= smaller < k :: NothingFits(cents, smaller, amount, tolerance)
    ensures var bills := Gather(cents, chosen);
            var paid := PayInOrder(bills, amount);
            && PaidInOrder(bills, amount, paid)
            && |paid| == k
            && bills[k - 1] - tolerance <= paid[k - 1]
  {
    var bills := Gather(cents, chosen);
    var paid := PayInOrder(bills, amount);
    PayInOrderPays(bills, amount);
    PayInOrderSums(bills, amount);
    var m := |paid|;
    if 1 <= m < k {
      ProperPartsFallShort(cents, k, amount, tolerance, chosen, m);
    }
    if m > 0 {
      PaidPrefix(bills, amount, paid);
    }
    assert Abs(Sum(bills) - amount) <= tolerance;
    hide Fits, Choice, Within, PayInOrder, NothingFits;
    assert m == 0 ==> Sum(paid) == 0;
    hide Sum;
  }

  /** The sum paid, from the bills before the last one paid. */
  lemma PaidPrefix(bills: seq<int>, amount: int, paid: seq<int>)
    requires PaidInOrder(bills, amount, paid) && paid != []
    ensures var m := |paid|;
            && Sum(bills[..m]) == Sum(bills[..m - 1]) + bills[m - 1]
            && Sum(paid) == Sum(bills[..m - 1]) + paid[m - 1] <= Sum(bills[..m])
            && (m == |bills| ==> bills[..m] == bills)
  {
    var m := |paid|;
    assert bills[..m][..m - 1] == bills[..m - 1];
    assert paid[..m - 1] == bills[..m - 1];
  }

  /** The combination branch: a pair, or a triple after every pair has failed; each charge in it
      is paid, all but the last in full, and the last is short by at most the tolerance. */
  lemma CombinationBranch(amount: int, cents: seq<int>)
    requires 0 < amount && forall i | 0 <= i < |cents| :: 0 < cents[i]
    requires PlanFor(amount, cents).kind == Subset
    ensures var Plan(_, chosen, paid) := PlanFor(amount, cents);
            var k, tolerance := |chosen|, Tolerance(amount);
            && 2 <= k <= 3 && |paid| == k
            && Fits(cents, k, amount, tolerance, chosen)
            && (forall other | Fits(cents, k, amount, tolerance, other) :: LexLeq(chosen, other))
            && (k == 3 ==> NothingFits(cents, 2, amount, tolerance))
            && (forall j | 0 <= j < k :: 0 < paid[j] <= cents[chosen[j]])
            && (forall j | 0 <= j < k - 1 :: paid[j] == cents[chosen[j]])
            && cents[chosen[k - 1]] <= paid[k - 1] + tolerance
            && Sum(paid) == Min(amount, Sum(Gather(cents, chosen)))
  {
    var tolerance := Tolerance(amount);
    var combo := FindCombo(cents, amount, tolerance).value;
    FindComboIsExhaustive(cents, amount, tolerance);
    NoSingleFits(cents, amount, tolerance);
    assert PlanFor(amount, cents) == Plan(Subset, combo, PayInOrder(Gather(cents, combo), amount));
    hide PlanFor, FindCombo, FindSubset, PayInOrder, Sum, LexLeq, Within, FindSingle;
    forall smaller: nat | 1 <= smaller < |combo| ensures NothingFits(cents, smaller, amount, tolerance) {
      assert smaller == 1 || smaller == 2;
    }
    ComboSettles(cents, |combo|, amount, tolerance, combo);
    PayInOrderSums(Gather(cents, combo), amount);
    hide Fits, NothingFits;
  }

  // ----- the greedy branch

  /** The oldest-first branch: a prefix of the pool, only its last charge perhaps in part, and
      as much of the outstanding total as the amount allows. */
  lemma GreedyBranch(amount: int, cents: seq<int>)
    requires 0 < amount && forall i | 0 <= i < |cents| :: 0 < cents[i]
    requires PlanFor(amount, cents).kind !in {Exact, Subset}
    ensures var Plan(_, chosen, paid) := PlanFor(amount, cents);
            && chosen == Positions(|cents|)
            && PaidInOrder(cents, amount, paid)
            && Sum(paid) == Min(amount, Sum(cents))
  {
    PayInOrderPays(cents, amount);
    PayInOrderSums(cents, amount);
  }

  // ----- every branch

  ghost predicate SoundPlan(amount: int, cents: seq<int>, chosen: seq<nat>, paid: seq<int>) {
    var cap := Min(amount, Sum(cents));
    && |paid| <= |chosen|
    && (forall j | 0 <= j < |paid| :: chosen[j] < |cents| && 0 < paid[j] <= cents[chosen[j]])
    && (forall i, j | 0 <= i < j < |paid| :: chosen[i] < chosen[j])
    && cap - Tolerance(amount) <= Sum(paid) <= cap
  }

  lemma SingleIsSound(amount: int, cents: seq<int>)
    requires 0 < amount && forall i | 0 <= i < |cents| :: 0 < cents[i]
    requires PlanFor(amount, cents).kind == Exact
    ensures SoundPlan(amount, cents, PlanFor(amount, cents).chosen, PlanFor(amount, cents).paid)
  {
    var Plan(_, chosen, paid) := PlanFor(amount, cents);
    assert paid[..0] == [] && Gather(cents, chosen)[..0] == [] && cents[..|cents|] == cents;
    ChoiceAtMostSum(cents, |cents|, chosen);
  }

  lemma CombinationIsSound(amount: int, cents: seq<int>)
    requires 0 < amount && forall i | 0 <= i < |cents| :: 0 < cents[i]
    requires PlanFor(amount, cents).kind == Subset
    ensures SoundPlan(amount, cents, PlanFor(amount, cents).chosen, PlanFor(amount, cents).paid)
  {
    CombinationBranch(amount, cents);
    assert cents[..|cents|] == cents;
    ChoiceAtMostSum(cents, |cents|, PlanFor(amount, cents).chosen);
  }

  /** In every branch distinct charges are paid, none beyond what remains on it, and the matched
      total is the most it could be, less at most the tolerance. */
  lemma PlanIsSound(amount: int, cents: seq<int>)
    requires 0 < amount && forall i | 0 <= i < |cents| :: 0 < cents[i]
    ensures SoundPlan(amount, cents, PlanFor(amount, cents).chosen, PlanFor(amount, cents).paid)
  {
    match PlanFor(amount, cents).kind
    case Exact => SingleIsSound(amount, cents);
    case Subset => CombinationIsSound(amount, cents);
    case _ => GreedyBranch(amount, cents);
  }

  /** What each reported kind means, in terms of the charges alone. */
  lemma KindMeans(amount: int, cents: seq<int>)
    requires 0 < amount && forall i | 0 <= i < |cents| :: 0 < cents[i]
    ensures var kind, tolerance := PlanFor(amount, cents).kind, Tolerance(amount);
            var single := exists i :: 0 <= i < |cents| && Within(cents[i], amount, tolerance);
            var combo := !NothingFits(cents, 2, amount, tolerance) || !NothingFits(cents, 3, amount, tolerance);
            var greedy := !single && !combo;
            && (kind == Exact <==> single)
            && (kind == Subset <==> !single && combo)
            && (kind == Over <==> greedy && amount > Sum(cents) + tolerance)
            && (kind == Person <==> cents == [] && amount <= 100)
            && (kind == Partial <==> greedy && cents != [] && cents[0] > amount + tolerance)
            && (kind == Multi <==>
                  greedy && amount <= Sum(cents) + tolerance && cents != [] && cents[0] < amount - tolerance)
  {
    FindComboIsExhaustive(cents, amount, Tolerance(amount));
    if PlanFor(amount, cents).kind !in {Exact, Subset} {
      GreedyKindMeans(amount, cents);
    }
  }

  lemma GreedyKindMeans(amount: int, cents: seq<int>)
    requires 0 < amount && forall i | 0 <= i < |cents| :: 0 < cents[i]
    requires PlanFor(amount, cents).kind !in {Exact, Subset}
    ensures var kind, tolerance := PlanFor(amount, cents).kind, Tolerance(amount);
            && (kind == Over <==> amount > Sum(cents) + tolerance)
            && (kind == Person <==> cents == [] && amount <= 100)
            && (kind == Partial <==> cents != [] && cents[0] > amount + tolerance)
            && (kind == Multi <==> amount <= Sum(cents) + tolerance && cents != [] && cents[0] < amount - tolerance)
  {
    GreedyBranch(amount, cents);
    if cents != [] {
      assert !Within(cents[0], amount, Tolerance(amount));
      FirstAtMostSum(cents);
    }
    var paid := PlanFor(amount, cents).paid;
    if paid != [] {
      FirstAtMostSum(paid);
    }
    OnePaymentSum(paid);
    OnePaymentSum(cents);
    GreedyKindOf(amount, cents, paid);
  }

  lemma GreedyKindOf(amount: int, cents: seq<int>, paid: seq<int>)
    requires 0 < amount && PaidInOrder(cents, amount, paid) && Sum(paid) == Min(amount, Sum(cents))
    requires cents != [] ==> !Within(cents[0], amount, Tolerance(amount)) && cents[0] <= Sum(cents)
    requires |cents| == 1 ==> Sum(cents) == cents[0]
    requires cents == [] ==> Sum(cents) == 0
    requires |paid| == 1 ==> Sum(paid) == paid[0]
    requires paid == [] ==> Sum(paid) == 0
    requires paid != [] ==> paid[0] <= Sum(paid)
    ensures var kind, tolerance := GreedyKind(amount, Sum(cents), |paid|), Tolerance(amount);
            && (kind == Over <==> amount > Sum(cents) + tolerance)
            && (kind == Person <==> cents == [] && amount <= 100)
            && (kind == Partial <==> cents != [] && cents[0] > amount + tolerance)
            && (kind == Multi <==> amount <= Sum(cents) + tolerance && cents != [] && cents[0] < amount - tolerance)
  {
    hide Sum;
  }

  lemma OnePaymentSum(paid: seq<int>)
    ensures |paid| == 1 ==> Sum(paid) == paid[0]
    ensures paid == [] ==> Sum(paid) == 0
  {
    if |paid| == 1 {
      assert paid[..0] == [];
    }
  }

  lemma {:induction false} FirstAtMostSum(cents: seq<int>)
    requires cents != [] && forall i | 0 <= i < |cents| :: 0 < cents[i]
    ensures cents[0] <= Sum(cents)
  {
    if |cents| > 1 {
      FirstAtMostSum(cents[..|cents| - 1]);
    } else {
      assert cents[..0] == [];
    }
  }

  // ----- the same facts about the reported outcome

  ghost predicate DistinctIds(expenses: seq<Expense>) {
    forall i, j | 0 <= i < j < |expenses| :: expenses[i].id != expenses[j].id
  }

  /** What is still outstanding over all charges. */
  function Outstanding(expenses: seq<Expense>): int {
    if expenses == [] then 0
    else Outstanding(expenses[..|expenses| - 1]) + Max(0, expenses[|expenses| - 1].remaining)
  }

  function AllocatedCents(allocations: seq<Allocated>): int {
    if allocations == [] then 0
    else AllocatedCents(allocations[..|allocations| - 1]) + allocations[|allocations| - 1].cents
  }

  lemma RemainingOfSnoc(s: seq<Expense>, e: Expense)
    ensures Sum(Remaining(s + [e])) == Sum(Remaining(s)) + e.remaining
  {
    assert Remaining(s + [e]) == Remaining(s) + [e.remaining];
    SumOfSnoc(Remaining(s), e.remaining);
  }

  lemma {:induction false} InsertAddsUp(e: Expense, sorted: seq<Expense>)
    ensures Sum(Remaining(Insert(NotAfter, e, sorted))) == Sum(Remaining(sorted)) + e.remaining
  {
    hide Sum, Remaining;
    if sorted == [] || NotAfter(sorted[|sorted| - 1], e) {
      RemainingOfSnoc(sorted, e);
    } else {
      var front, last := sorted[..|sorted| - 1], sorted[|sorted| - 1];
      InsertAddsUp(e, front);
      RemainingOfSnoc(Insert(NotAfter, e, front), last);
      RemainingOfSnoc(front, last);
      assert sorted == front + [last];
    }
  }

  lemma {:induction false} PoolAddsUp(expenses: seq<Expense>)
    ensures Sum(Remaining(Pool(expenses))) == Outstanding(expenses)
  {
    if expenses == [] {
    } else {
      var front, last := expenses[..|expenses| - 1], expenses[|expenses| - 1];
      PoolAddsUp(front);
      if last.remaining > 0 {
        var open := Open(front);
        assert Open(expenses) == open + [last] && (open + [last])[..|open|] == open;
        assert Pool(expenses) == Insert(NotAfter, last, Pool(front));
        InsertAddsUp(last, Pool(front));
      } else {
        assert Open(expenses) == Open(front);
      }
      hide Insert, Sum, Remaining;
    }
  }

  ghost predicate NoneWithId(expenses: seq<Expense>, id: nat) {
    forall i | 0 <= i < |expenses| :: expenses[i].id != id
  }

  lemma NoneOfSnoc(s: seq<Expense>, e: Expense, id: nat)
    ensures NoneWithId(s + [e], id) <==> NoneWithId(s, id) && e.id != id
  {
    if NoneWithId(s + [e], id) {
      assert (s + [e])[|s|] == e;
      assert forall i | 0 <= i < |s| :: (s + [e])[i] == s[i];
    }
  }

  lemma DistinctOfSnoc(s: seq<Expense>, e: Expense)
    ensures DistinctIds(s + [e]) <==> DistinctIds(s) && NoneWithId(s, e.id)
  {
    var all := s + [e];
    assert all[|s|] == e && forall i | 0 <= i < |s| :: all[i] == s[i];
  }

  lemma {:induction false} OpenHasNone(expenses: seq<Expense>, id: nat)
    requires NoneWithId(expenses, id)
    ensures NoneWithId(Open(expenses), id)
  {
    if expenses == [] {
    } else {
      var front, last := expenses[..|expenses| - 1], expenses[|expenses| - 1];
      assert expenses == front + [last];
      assert Open(expenses) == if last.remaining > 0 then Open(front) + [last] else Open(front);
      hide *;
      NoneOfSnoc(front, last, id);
      OpenHasNone(front, id);
      NoneOfSnoc(Open(front), last, id);
    }
  }

  lemma {:induction false} OpenStaysDistinct(expenses: seq<Expense>)
    requires DistinctIds(expenses)
    ensures DistinctIds(Open(expenses))
  {
    if expenses == [] {
    } else {
      var front, last := expenses[..|expenses| - 1], expenses[|expenses| - 1];
      assert expenses == front + [last];
      assert Open(expenses) == if last.remaining > 0 then Open(front) + [last] else Open(front);
      hide *;
      DistinctOfSnoc(front, last);
      OpenStaysDistinct(front);
      OpenHasNone(front, last.id);
      DistinctOfSnoc(Open(front), last);
    }
  }

  lemma PoolKeeps(expenses: seq<Expense>)
    ensures Sum(Remaining(Pool(expenses))) == Outstanding(expenses)
    ensures DistinctIds(expenses) ==> DistinctIds(Pool(expenses))
    ensures forall i | 0 <= i < |Pool(expenses)| :: Pool(expenses)[i] in expenses && Pool(expenses)[i].remaining > 0
  {
    PoolAddsUp(expenses);
    SortSorts(NotAfter, Open(expenses));
    if DistinctIds(expenses) {
      OpenStaysDistinct(expenses);
      DistinctByPermutation((e: Expense) => e.id, Open(expenses), Pool(expenses));
    }
    PoolIsOpenOldestFirst(expenses);
  }

  lemma {:induction false} ReferKeepsCents(pool: seq<Expense>, chosen: seq<nat>, paid: seq<int>)
    requires |paid| <= |chosen| && forall j | 0 <= j < |paid| :: chosen[j] < |pool|
    ensures AllocatedCents(Refer(pool, chosen, paid)) == Sum(paid)
    decreases |paid|
  {
    if paid != [] {
      var front := paid[..|paid| - 1];
      ReferKeepsCents(pool, chosen, front);
      assert Refer(pool, chosen, paid)[..|front|] == Refer(pool, chosen, front);
    }
  }

  /** Some charge with this id has at least this much outstanding. */
  ghost predicate Covered(expenses: seq<Expense>, a: Allocated) {
    exists i :: 0 <= i < |expenses| && expenses[i].id == a.id && 0 < a.cents <= expenses[i].remaining
  }

  ghost predicate DistinctTargets(allocations: seq<Allocated>) {
    forall i, j | 0 <= i < j < |allocations| :: allocations[i].id != allocations[j].id
  }

  /** For every positive inflow: each allocation is positive and covered by an open charge, no
      charge is allocated to twice, and the matched total is their sum and lies within the
      tolerance of the most that could be matched. */
  lemma AllocationIsSound(amount: int, expenses: seq<Expense>)
    requires 0 < amount
    ensures var o := AllocationFor(amount, expenses);
            var cap := Min(amount, Outstanding(expenses));
            && (forall j | 0 <= j < |o.allocations| :: Covered(expenses, o.allocations[j]))
            && (DistinctIds(expenses) ==> DistinctTargets(o.allocations))
            && o.matched == AllocatedCents(o.allocations)
            && cap - Tolerance(amount) <= o.matched <= cap
            && (o.kind !in {Exact, Subset} ==> o.matched == cap)
  {
    PoolKeeps(expenses);
    var pool := Pool(expenses);
    var cents := Remaining(pool);
    PlanIsSound(amount, cents);
    var plan, o := PlanFor(amount, cents), AllocationFor(amount, expenses);
    ReferKeepsCents(pool, plan.chosen, plan.paid);
    if plan.kind !in {Exact, Subset} {
      GreedyBranch(amount, cents);
    }
    OutcomeOfPlan(amount, expenses, pool, plan.chosen, plan.paid);
    assert o == Outcome(Refer(pool, plan.chosen, plan.paid), Sum(plan.paid), plan.kind);
    hide PlanFor, Pool, Refer, Outstanding, AllocatedCents, Covered, DistinctTargets, PaidInOrder;
  }

  lemma OutcomeOfPlan(amount: int, expenses: seq<Expense>, pool: seq<Expense>, chosen: seq<nat>, paid: seq<int>)
    requires SoundPlan(amount, Remaining(pool), chosen, paid)
    requires forall i | 0 <= i < |pool| :: pool[i] in expenses
    requires DistinctIds(expenses) ==> DistinctIds(pool)
    ensures var allocations := Refer(pool, chosen, paid);
            && (forall j | 0 <= j < |allocations| :: Covered(expenses, allocations[j]))
            && (DistinctIds(expenses) ==> DistinctTargets(allocations))
  {
    var allocations := Refer(pool, chosen, paid);
    forall j | 0 <= j < |allocations| ensures Covered(expenses, allocations[j]) {
      var e := pool[chosen[j]];
      var i :| 0 <= i < |expenses| && expenses[i] == e;
    }
    hide Refer, Covered;
  }
}
