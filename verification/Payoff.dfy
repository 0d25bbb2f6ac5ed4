/** How long a debt takes to pay off at a fixed monthly payment, and what interest it costs.
    Dollars and rates are exact reals. */
module Payoff {

  datatype Debt = Debt(balance: real, apr: real, minPayment: real)

  /** Unprojected covers the empty debt, the missing payment and the payment that never pays off. */
  datatype Projection = Unprojected | Projected(months: nat, interest: real)

  const CAP: nat := 600
  const HALF_CENT := 0.005

  function Nonnegative(x: real): (r: real)
    ensures r >= 0.0
  {
    if x >= 0.0 then x else 0.0
  }

  function MonthlyRate(debt: Debt): (r: real)
    ensures r >= 0.0
  {
    Nonnegative(debt.apr) / 100.0 / 12.0
  }

  /** One month's interest. */
  function Charge(balance: real, rate: real): real {
    balance * rate
  }

  /** The balance a month later: the interest charged, the payment made. */
  function NextBalance(balance: real, rate: real, payment: real): (next: real)
    ensures next >= 0.0
  {
    Nonnegative(balance + Charge(balance, rate) - payment)
  }

  /** The charge of a month eats up the whole payment. */
  predicate Stuck(balance: real, rate: real, payment: real) {
    payment <= Charge(balance, rate) && rate > 0.0
  }

  function Walk(balance: real, rate: real, payment: real, months: nat, interest: real): Projection
    decreases CAP - months
  {
    if balance <= HALF_CENT || months >= CAP then Projected(months, interest)
    else if Stuck(balance, rate, payment) then Unprojected
    else Walk(NextBalance(balance, rate, payment), rate, payment, months + 1, interest + Charge(balance, rate))
  }

  function Project(debt: Debt): Projection {
    var balance, payment := Nonnegative(debt.balance), Nonnegative(debt.minPayment);
    if balance == 0.0 || payment == 0.0 then Unprojected
    else Walk(balance, MonthlyRate(debt), payment, 0, 0.0)
  }

  /** The projection as the source runs it, month by month. */
  method PayoffProjection(debt: Debt) returns (r: Projection)
    ensures r == Project(debt)
  {
    hide Charge, MonthlyRate;
    var balance, payment := Nonnegative(debt.balance), Nonnegative(debt.minPayment);
    if balance == 0.0 || payment == 0.0 {
      return Unprojected;
    }
    var bal, interest, months := balance, 0.0, 0;
    var monthlyRate := MonthlyRate(debt);
    while bal > HALF_CENT && months < CAP
      invariant Walk(bal, monthlyRate, payment, months, interest) == Project(debt)
      decreases CAP - months
    {
      var charge := Charge(bal, monthlyRate);
      if payment <= charge && monthlyRate > 0.0 {
        return Unprojected;
      }
      interest := interest + charge;
      bal := Nonnegative(bal + charge - payment);
      months := months + 1;
    }
    return Projected(months, interest);
  }

  // ----- the balance falls, so it can only get stuck at once

  lemma ProductGrows(a: real, b: real, r: real, s: real)
    requires 0.0 <= a <= b && 0.0 <= r <= s
    ensures 0.0 <= Charge(a, r) <= Charge(b, s)
  {
    assert a * r <= b * r;
    assert b * r <= b * s;
  }

  lemma NoRateNoCharge(balance: real)
    ensures Charge(balance, 0.0) == 0.0
  {}

  lemma BalanceFalls(balance: real, rate: real, payment: real)
    requires balance > HALF_CENT && rate >= 0.0 && payment > 0.0 && !Stuck(balance, rate, payment)
    ensures NextBalance(balance, rate, payment) < balance
    ensures !Stuck(NextBalance(balance, rate, payment), rate, payment)
  {
    var next := NextBalance(balance, rate, payment);
    NoRateNoCharge(balance);
    hide Charge;
    ProductGrows(next, balance, rate, rate);
  }

  lemma {:induction false} UnstuckWalkEnds(balance: real, rate: real, payment: real, months: nat, interest: real)
    requires rate >= 0.0 && payment > 0.0 && !Stuck(balance, rate, payment)
    ensures Walk(balance, rate, payment, months, interest).Projected?
    decreases CAP - months
  {
    hide Charge, NextBalance, Stuck;
    if balance > HALF_CENT && months < CAP {
      BalanceFalls(balance, rate, payment);
      UnstuckWalkEnds(NextBalance(balance, rate, payment), rate, payment, months + 1, interest + Charge(balance, rate));
    }
  }

  /** No projection is given exactly when there is no debt, no payment, or when the first
      month's interest already eats up the payment. */
  lemma UnprojectedExactly(debt: Debt)
    ensures Project(debt).Unprojected? <==>
              || debt.balance <= 0.0 || debt.minPayment <= 0.0
              || (debt.balance > 0.005 && debt.apr > 0.0 && debt.minPayment <= debt.balance * (debt.apr / 1200.0))
  {
    UnprojectedWhenStuck(debt);
    MonthlyRateIs(debt);
    hide MonthlyRate, Project;
  }

  lemma UnprojectedWhenStuck(debt: Debt)
    ensures Project(debt).Unprojected? <==>
              || debt.balance <= 0.0 || debt.minPayment <= 0.0
              || (debt.balance > HALF_CENT && Stuck(debt.balance, MonthlyRate(debt), debt.minPayment))
  {
    if debt.balance > 0.0 && debt.minPayment > 0.0 {
      var rate := MonthlyRate(debt);
      hide Charge, Stuck, MonthlyRate;
      if !Stuck(debt.balance, rate, debt.minPayment) {
        UnstuckWalkEnds(debt.balance, rate, debt.minPayment, 0, 0.0);
      }
    }
  }

  /** A month's rate is a twelfth of a hundredth of the yearly percentage, if that is positive. */
  lemma MonthlyRateIs(debt: Debt)
    ensures MonthlyRate(debt) == if debt.apr > 0.0 then debt.apr / 1200.0 else 0.0
  {}

  // ----- two debts compared

  lemma {:induction false} WalkGrows(balance: real, rate: real, payment: real, months: nat, interest: real)
    requires balance >= 0.0 && rate >= 0.0
    requires months <= CAP && Walk(balance, rate, payment, months, interest).Projected?
    ensures var r := Walk(balance, rate, payment, months, interest);
            months <= r.months <= CAP && interest <= r.interest
    decreases CAP - months
  {
    hide Charge;
    NoRateNoCharge(0.0);
    if balance > HALF_CENT && months < CAP {
      ProductGrows(0.0, balance, 0.0, rate);
      WalkGrows(NextBalance(balance, rate, payment), rate, payment, months + 1, interest + Charge(balance, rate));
    }
  }

  lemma {:induction false} EasierWalksEndSooner(b1: real, r1: real, p1: real, i1: real,
                                                b2: real, r2: real, p2: real, i2: real, months: nat)
    requires 0.0 <= b1 <= b2 && 0.0 <= r1 <= r2 && p1 >= p2 > 0.0 && i1 <= i2
    requires months <= CAP && Walk(b2, r2, p2, months, i2).Projected?
    ensures var x, y := Walk(b1, r1, p1, months, i1), Walk(b2, r2, p2, months, i2);
            x.Projected? && x.months <= y.months && x.interest <= y.interest
    decreases CAP - months
  {
    hide Charge;
    if b1 <= HALF_CENT || months >= CAP {
      WalkGrows(b2, r2, p2, months, i2);
    } else {
      ProductGrows(b1, b2, r1, r2);
      if r2 == 0.0 {
        assert r1 == 0.0;
      }
      EasierWalksEndSooner(NextBalance(b1, r1, p1), r1, p1, i1 + Charge(b1, r1),
                           NextBalance(b2, r2, p2), r2, p2, i2 + Charge(b2, r2), months + 1);
    }
  }

  lemma MonthlyRateGrows(a: Debt, b: Debt)
    requires a.apr <= b.apr
    ensures MonthlyRate(a) <= MonthlyRate(b)
  {}

  /** Owing no more, at no higher a rate, and paying no less, never takes longer and never costs
      more interest; in particular a larger payment on the same debt. */
  lemma EasierDebtsEndSooner(easy: Debt, hard: Debt)
    requires 0.0 < easy.balance <= hard.balance
    requires easy.apr <= hard.apr && easy.minPayment >= hard.minPayment
    requires Project(hard).Projected?
    ensures Project(easy).Projected?
    ensures Project(easy).months <= Project(hard).months && Project(easy).interest <= Project(hard).interest
  {
    MonthlyRateGrows(easy, hard);
    hide MonthlyRate, Walk;
    EasierWalksEndSooner(easy.balance, MonthlyRate(easy), easy.minPayment, 0.0,
                         hard.balance, MonthlyRate(hard), hard.minPayment, 0.0, 0);
  }

  // ----- where the money goes

  /** The balance after k months, and the interest charged in them. */
  function BalanceAfter(balance: real, rate: real, payment: real, k: nat): real {
    if k == 0 then balance else NextBalance(BalanceAfter(balance, rate, payment, k - 1), rate, payment)
  }

  function InterestAfter(balance: real, rate: real, payment: real, k: nat): real {
    if k == 0 then 0.0
    else InterestAfter(balance, rate, payment, k - 1) + Charge(BalanceAfter(balance, rate, payment, k - 1), rate)
  }

  lemma {:induction false} WalkStops(balance: real, rate: real, payment: real, k: nat)
    requires k <= CAP
    requires Walk(BalanceAfter(balance, rate, payment, k), rate, payment, k,
                  InterestAfter(balance, rate, payment, k)).Projected?
    ensures var r := Walk(BalanceAfter(balance, rate, payment, k), rate, payment, k,
                          InterestAfter(balance, rate, payment, k));
            var n := r.months;
            && k <= n <= CAP
            && r.interest == InterestAfter(balance, rate, payment, n)
            && (n < CAP ==> BalanceAfter(balance, rate, payment, n) <= HALF_CENT)
            && forall j: nat | k <= j < n :: BalanceAfter(balance, rate, payment, j) > HALF_CENT
    decreases CAP - k
  {
    hide Charge, NextBalance, Stuck;
    if BalanceAfter(balance, rate, payment, k) > HALF_CENT && k < CAP {
      WalkStops(balance, rate, payment, k + 1);
    }
  }

  /** The projected months are the first after which at most half a cent is owed, or the cap. */
  lemma ProjectedMonths(debt: Debt)
    requires Project(debt).Projected?
    ensures var Projected(n, interest) := Project(debt);
            var rate := MonthlyRate(debt);
            && n <= CAP
            && interest == InterestAfter(debt.balance, rate, debt.minPayment, n)
            && (n < CAP ==> BalanceAfter(debt.balance, rate, debt.minPayment, n) <= HALF_CENT)
            && forall j: nat | j < n :: BalanceAfter(debt.balance, rate, debt.minPayment, j) > HALF_CENT
  {
    hide Charge, NextBalance, Stuck, MonthlyRate;
    WalkStops(debt.balance, MonthlyRate(debt), debt.minPayment, 0);
  }

  /** What n full payments come to. */
  function FullPayments(payment: real, n: nat): real {
    payment * (n as real)
  }

  lemma OneMorePayment(payment: real, n: nat)
    ensures FullPayments(payment, n + 1) == FullPayments(payment, n) + payment
    ensures FullPayments(payment, 0) == 0.0
  {
    assert (n + 1) as real == n as real + 1.0;
  }

  /** While the debt lasts every payment is made in full. */
  lemma {:induction false} FullPaymentsSoFar(balance: real, rate: real, payment: real, k: nat)
    requires forall j: nat | j <= k :: BalanceAfter(balance, rate, payment, j) > HALF_CENT
    ensures balance + InterestAfter(balance, rate, payment, k)
         == FullPayments(payment, k) + BalanceAfter(balance, rate, payment, k)
  {
    hide Charge, FullPayments;
    OneMorePayment(payment, if k > 0 then k - 1 else 0);
    if k > 0 {
      FullPaymentsSoFar(balance, rate, payment, k - 1);
      assert BalanceAfter(balance, rate, payment, k) > HALF_CENT;
    }
  }

  /** The interest is the payments made less the principal repaid: every payment is made in
      full, except that the last may be smaller. */
  lemma InterestIsPaidLessRepaid(debt: Debt)
    requires Project(debt).Projected? && Project(debt).months > 0
    ensures var Projected(n, interest) := Project(debt);
            var owed := BalanceAfter(debt.balance, MonthlyRate(debt), debt.minPayment, n);
            var lastPayment := interest + (debt.balance - owed) - FullPayments(debt.minPayment, n - 1);
            && 0.0 < lastPayment <= debt.minPayment
            && (owed > 0.0 ==> lastPayment == debt.minPayment)
  {
    ProjectedMonths(debt);
    UnprojectedWhenStuck(debt);
    hide Charge, FullPayments, MonthlyRate, Walk, BalanceAfter, InterestAfter, Stuck;
    LastPayment(debt.balance, MonthlyRate(debt), debt.minPayment, Project(debt).months);
  }

  lemma LastPayment(balance: real, rate: real, payment: real, n: nat)
    requires rate >= 0.0 && payment > 0.0 && n > 0
    requires forall j: nat | j < n :: BalanceAfter(balance, rate, payment, j) > HALF_CENT
    ensures var owed := BalanceAfter(balance, rate, payment, n);
            var interest := InterestAfter(balance, rate, payment, n);
            var lastPayment := interest + (balance - owed) - FullPayments(payment, n - 1);
            && 0.0 < lastPayment <= payment
            && (owed > 0.0 ==> lastPayment == payment)
  {
    FullPaymentsSoFar(balance, rate, payment, n - 1);
    var before := BalanceAfter(balance, rate, payment, n - 1);
    assert before > HALF_CENT;
    ProductGrows(0.0, before, 0.0, rate);
    NoRateNoCharge(0.0);
    hide Charge, FullPayments;
  }

  // ----- the amortisation formula

  function Times(rate: real, x: real): real {
    rate * x
  }

  function Pow(x: real, k: nat): real {
    if k == 0 then 1.0 else x * Pow(x, k - 1)
  }

  /** What the textbook formula says is owed after k months, times the rate. */
  function FormulaBalance(balance: real, rate: real, payment: real, k: nat): real {
    payment - (payment - rate * balance) * Pow(1.0 + rate, k)
  }

  lemma FormulaStep(balance: real, rate: real, payment: real, k: nat, now: real)
    requires Times(rate, now) == FormulaBalance(balance, rate, payment, k)
    ensures Times(rate, now + Charge(now, rate) - payment) == FormulaBalance(balance, rate, payment, k + 1)
  {
    var g, d := Pow(1.0 + rate, k), payment - rate * balance;
    calc {
      rate * (now + now * rate - payment);
      (1.0 + rate) * (rate * now) - rate * payment;
      (1.0 + rate) * (payment - d * g) - rate * payment;
      payment - d * ((1.0 + rate) * g);
    }
  }

  lemma FormulaStart(balance: real, rate: real, payment: real)
    ensures Times(rate, balance) == FormulaBalance(balance, rate, payment, 0)
  {}

  lemma {:induction false} FormulaHolds(balance: real, rate: real, payment: real, k: nat)
    requires forall j: nat | j < k :: BalanceAfter(balance, rate, payment, j) > HALF_CENT
    ensures k > 0 ==>
              var before := BalanceAfter(balance, rate, payment, k - 1);
              Times(rate, before + Charge(before, rate) - payment) == FormulaBalance(balance, rate, payment, k)
    ensures (k == 0 || BalanceAfter(balance, rate, payment, k) > 0.0) ==>
              Times(rate, BalanceAfter(balance, rate, payment, k)) == FormulaBalance(balance, rate, payment, k)
  {
    hide Charge, FormulaBalance, Times;
    if k == 0 {
      FormulaStart(balance, rate, payment);
    } else {
      FormulaHolds(balance, rate, payment, k - 1);
      var before := BalanceAfter(balance, rate, payment, k - 1);
      assert before > HALF_CENT;
      FormulaStep(balance, rate, payment, k - 1, before);
      assert BalanceAfter(balance, rate, payment, k) == NextBalance(before, rate, payment);
    }
  }

  /** At a positive rate the months are the least k for which the amortisation formula leaves at
      most half a cent, or the cap when no smaller k does; at the cap too, the formula says
      whether the debt is paid off. */
  lemma MonthsSolveTheFormula(debt: Debt)
    requires Project(debt).Projected? && debt.apr > 0.0
    ensures var n, rate := Project(debt).months, debt.apr / 1200.0;
            && n <= 600
            && (FormulaBalance(debt.balance, rate, debt.minPayment, n) <= Times(rate, 0.005) <==>
                  BalanceAfter(debt.balance, rate, debt.minPayment, n) <= 0.005)
            && (n < 600 ==> FormulaBalance(debt.balance, rate, debt.minPayment, n) <= Times(rate, 0.005))
            && forall k: nat | k < n :: FormulaBalance(debt.balance, rate, debt.minPayment, k) > Times(rate, 0.005)
  {
    MonthlyRateIs(debt);
    ProjectedMonths(debt);
    var n, rate := Project(debt).months, MonthlyRate(debt);
    hide Charge, FormulaBalance, MonthlyRate, Project, Times;
    forall k: nat | k < n
      ensures FormulaBalance(debt.balance, rate, debt.minPayment, k) > Times(rate, HALF_CENT)
    {
      FormulaWhileOwing(debt.balance, rate, debt.minPayment, k);
    }
    if BalanceAfter(debt.balance, rate, debt.minPayment, n) <= HALF_CENT {
      FormulaOncePaid(debt.balance, rate, debt.minPayment, n);
    } else {
      FormulaWhileOwing(debt.balance, rate, debt.minPayment, n);
    }
  }

  lemma FormulaWhileOwing(balance: real, rate: real, payment: real, k: nat)
    requires rate > 0.0 && forall j: nat | j <= k :: BalanceAfter(balance, rate, payment, j) > HALF_CENT
    ensures FormulaBalance(balance, rate, payment, k) > Times(rate, HALF_CENT)
  {
    hide Charge, FormulaBalance, Times, NextBalance;
    FormulaHolds(balance, rate, payment, k);
    ScaledOrder(rate, HALF_CENT, BalanceAfter(balance, rate, payment, k));
  }

  lemma FormulaOncePaid(balance: real, rate: real, payment: real, n: nat)
    requires rate > 0.0 && BalanceAfter(balance, rate, payment, n) <= HALF_CENT
    requires forall j: nat | j < n :: BalanceAfter(balance, rate, payment, j) > HALF_CENT
    ensures FormulaBalance(balance, rate, payment, n) <= Times(rate, HALF_CENT)
  {
    hide Charge, FormulaBalance, Times;
    FormulaHolds(balance, rate, payment, n);
    if n > 0 {
      var before := BalanceAfter(balance, rate, payment, n - 1);
      ScaledOrder(rate, before + Charge(before, rate) - payment, HALF_CENT);
    } else {
      ScaledOrder(rate, balance, HALF_CENT);
    }
  }

  lemma ScaledOrder(rate: real, a: real, b: real)
    requires rate > 0.0
    ensures a < b ==> Times(rate, a) < Times(rate, b)
    ensures a <= b ==> Times(rate, a) <= Times(rate, b)
  {}

  // ----- a debt the cap cuts short

  lemma {:induction false} PowGrows(x: real, j: nat, k: nat)
    requires x >= 1.0 && j <= k
    ensures 1.0 <= Pow(x, j) <= Pow(x, k)
  {
    if j < k {
      PowGrows(x, j, k - 1);
      assert x * Pow(x, k - 1) >= Pow(x, k - 1);
    } else if k > 0 {
      PowGrows(x, j - 1, k - 1);
      assert x * Pow(x, k - 1) >= Pow(x, k - 1);
    }
  }

  /** When the payment exceeds the first month's interest the formula only ever falls. */
  lemma FormulaFalls(balance: real, rate: real, payment: real, j: nat, k: nat)
    requires rate >= 0.0 && payment >= Charge(balance, rate) && j <= k
    ensures FormulaBalance(balance, rate, payment, k) <= FormulaBalance(balance, rate, payment, j)
  {
    PowGrows(1.0 + rate, j, k);
    var d, low, high := payment - rate * balance, Pow(1.0 + rate, j), Pow(1.0 + rate, k);
    assert Charge(balance, rate) == rate * balance;
    assert d * (high - low) >= 0.0;
  }

  /** Without interest every month takes the same off the balance. */
  lemma {:induction false} FreeBalance(balance: real, payment: real, k: nat)
    requires balance >= 0.0 && payment >= 0.0
    ensures BalanceAfter(balance, 0.0, payment, k) == Nonnegative(balance - FullPayments(payment, k))
    ensures InterestAfter(balance, 0.0, payment, k) == 0.0
    ensures forall j: nat | j <= k :: FullPayments(payment, j) <= FullPayments(payment, k)
  {
    hide Charge, FullPayments;
    OneMorePayment(payment, if k > 0 then k - 1 else 0);
    if k > 0 {
      FreeBalance(balance, payment, k - 1);
      NoRateNoCharge(BalanceAfter(balance, 0.0, payment, k - 1));
    }
  }

  /** Six hundred payments are enough: by the amortisation formula, or, without interest, by
      their sum. */
  predicate FitsTheCap(debt: Debt) {
    var rate := debt.apr / 1200.0;
    || debt.balance <= 0.005
    || if rate > 0.0
       then FormulaBalance(debt.balance, rate, debt.minPayment, 600) <= Times(rate, 0.005)
       else debt.balance - FullPayments(debt.minPayment, 600) <= 0.005
  }

  /** The projected months are the first after which at most half a cent is owed, provided that
      six hundred payments are enough; exactly when they are not, the debt is reported as taking
      600 months with more than half a cent still owing. */
  lemma MonthsAreTheFirstPaidOff(debt: Debt)
    requires Project(debt).Projected?
    ensures var Projected(n, interest) := Project(debt);
            var rate := if debt.apr > 0.0 then debt.apr / 1200.0 else 0.0;
            && n <= 600
            && interest == InterestAfter(debt.balance, rate, debt.minPayment, n)
            && (forall j: nat | j < n :: BalanceAfter(debt.balance, rate, debt.minPayment, j) > 0.005)
            && (BalanceAfter(debt.balance, rate, debt.minPayment, n) <= 0.005 <==> FitsTheCap(debt))
            && (!FitsTheCap(debt) ==> n == 600)
  {
    var rate := MonthlyRate(debt);
    MonthlyRateIs(debt);
    ProjectedMonths(debt);
    UnprojectedWhenStuck(debt);
    hide MonthlyRate, Project, Walk, FormulaBalance, Times, Charge, NextBalance, FullPayments;
    if debt.balance > HALF_CENT {
      if rate > 0.0 {
        FormulaAtTheCap(debt.balance, rate, debt.minPayment, Project(debt).months);
      } else {
        FreeBalance(debt.balance, debt.minPayment, CAP);
        FreeBalance(debt.balance, debt.minPayment, Project(debt).months);
      }
    }
  }

  lemma FormulaAtTheCap(balance: real, rate: real, payment: real, n: nat)
    requires rate > 0.0 && n <= CAP && !Stuck(balance, rate, payment)
    requires n < CAP ==> BalanceAfter(balance, rate, payment, n) <= HALF_CENT
    requires forall j: nat | j < n :: BalanceAfter(balance, rate, payment, j) > HALF_CENT
    ensures BalanceAfter(balance, rate, payment, n) <= HALF_CENT
       <==> FormulaBalance(balance, rate, payment, CAP) <= Times(rate, HALF_CENT)
  {
    hide Charge, FormulaBalance, Times, NextBalance;
    if BalanceAfter(balance, rate, payment, n) <= HALF_CENT {
      FormulaOncePaid(balance, rate, payment, n);
      FormulaFalls(balance, rate, payment, n, CAP);
    } else {
      FormulaWhileOwing(balance, rate, payment, n);
    }
  }

  /** Without interest, a debt of more than six hundred payments is cut off at the cap. */
  lemma FreeDebtIsCut(debt: Debt)
    requires debt.apr <= 0.0 && debt.minPayment > 0.0
    requires debt.balance - FullPayments(debt.minPayment, CAP) > HALF_CENT
    ensures Project(debt) == Projected(CAP, 0.0) && !FitsTheCap(debt)
    ensures BalanceAfter(debt.balance, MonthlyRate(debt), debt.minPayment, CAP)
         == debt.balance - FullPayments(debt.minPayment, CAP)
  {
    assert MonthlyRate(debt) == 0.0 && !Stuck(debt.balance, 0.0, debt.minPayment);
    FreeBalance(debt.balance, debt.minPayment, CAP);
    OneMorePayment(debt.minPayment, 0);
    UnprojectedWhenStuck(debt);
    hide MonthlyRate, Project, Walk, FullPayments, BalanceAfter, InterestAfter, FormulaBalance, Times;
    MonthsAreTheFirstPaidOff(debt);
  }

  /** $601 without interest at $1 a month: reported as paid off in 600 months with a dollar owing. */
  lemma CapHidesADebt()
    ensures var debt := Debt(601.0, 0.0, 1.0);
            && Project(debt) == Projected(600, 0.0)
            && BalanceAfter(debt.balance, MonthlyRate(debt), debt.minPayment, 600) == 1.0
            && !FitsTheCap(debt)
  {
    var debt := Debt(601.0, 0.0, 1.0);
    assert FullPayments(debt.minPayment, CAP) == 600.0;
    hide *;
    FreeDebtIsCut(debt);
  }
}
