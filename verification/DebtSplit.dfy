/** Splitting each group expense between its creditors and debtors, as one member sees it.
    Net balances are whole cents; slices are exact real cents. A person is a user id. */
module DebtSplit {
  import opened Common

  /** One user's part in an expense: positive when the others owe them, negative when they owe. */
  datatype Share = Share(user: nat, net: int)

  datatype Expense = Expense(deleted: bool, currency: Option<string>, shares: seq<Share>)

  /** An amount of one expense between me and another user. */
  datatype Slice = Slice(user: nat, amount: real)

  const HALF_CENT := 0.5

  // ----- one expense

  function NetOf(shares: seq<Share>, user: nat): int {
    if shares == [] then 0
    else if shares[0].user == user then shares[0].net
    else NetOf(shares[1..], user)
  }

  /** The creditors' balances added up. */
  function Credit(shares: seq<Share>): (c: int)
    ensures c >= 0
  {
    if shares == [] then 0 else Credit(shares[..|shares| - 1]) + Max(0, shares[|shares| - 1].net)
  }

  function Debit(shares: seq<Share>): (d: int)
    ensures d >= 0
  {
    if shares == [] then 0 else Debit(shares[..|shares| - 1]) + Max(0, -shares[|shares| - 1].net)
  }

  /** The divisor of every slice; the source falls back to one dollar when nobody is owed. */
  function Pot(shares: seq<Share>): (t: real)
    ensures t > 0.0
  {
    if Credit(shares) == 0 then 100.0 else Credit(shares) as real
  }

  /** What a debtor owes a creditor: the debt, in proportion to the creditor's part of the pot. */
  function Portion(debtorNet: int, creditorNet: int, pot: real): real
    requires pot > 0.0
  {
    -(debtorNet as real) * (creditorNet as real / pot)
  }

  /** The portion between me and one other share: zero unless one of us is a creditor and the
      other a debtor, and dropped when it is half a cent or less. */
  function Kept(me: nat, myNet: int, other: Share, pot: real): (r: Option<Slice>)
    requires pot > 0.0
    ensures r.Some? ==> r.value.user == other.user && r.value.amount > HALF_CENT
  {
    if other.user == me then None
    else
      var amount :=
        if myNet > 0 && other.net < 0 then Portion(other.net, myNet, pot)
        else if myNet < 0 && other.net > 0 then Portion(myNet, other.net, pot)
        else 0.0;
      if amount <= HALF_CENT then None else Some(Slice(other.user, amount))
  }

  /** The slices of the first shares of an expense. */
  function SlicesOf(me: nat, myNet: int, shares: seq<Share>, pot: real): seq<Slice>
    requires pot > 0.0
  {
    if shares == [] then []
    else
      var kept := Kept(me, myNet, shares[|shares| - 1], pot);
      SlicesOf(me, myNet, shares[..|shares| - 1], pot) + if kept.Some? then [kept.value] else []
  }

  function Slices(me: nat, e: Expense): seq<Slice> {
    SlicesOf(me, NetOf(e.shares, me), e.shares, Pot(e.shares))
  }

  /** The amount of the slices that concern one user. */
  function With(slices: seq<Slice>, user: nat): real {
    if slices == [] then 0.0
    else
      With(slices[..|slices| - 1], user)
      + if slices[|slices| - 1].user == user then slices[|slices| - 1].amount else 0.0
  }

  function Amount(slices: seq<Slice>): real {
    if slices == [] then 0.0 else Amount(slices[..|slices| - 1]) + slices[|slices| - 1].amount
  }

  // ----- all expenses, as one member sees them

  /** What `user` owes `me`, and what `me` owes `user`, over the expenses that are not deleted. */
  function OwedToMe(me: nat, expenses: seq<Expense>, user: nat): real {
    if expenses == [] then 0.0
    else
      var last := expenses[|expenses| - 1];
      OwedToMe(me, expenses[..|expenses| - 1], user)
      + if !last.deleted && NetOf(last.shares, me) > 0 then With(Slices(me, last), user) else 0.0
  }

  function IOwe(me: nat, expenses: seq<Expense>, user: nat): real {
    if expenses == [] then 0.0
    else
      var last := expenses[|expenses| - 1];
      IOwe(me, expenses[..|expenses| - 1], user)
      + if !last.deleted && NetOf(last.shares, me) < 0 then With(Slices(me, last), user) else 0.0
  }

  /** Two live expenses name different currencies. */
  ghost predicate Mixed(expenses: seq<Expense>) {
    exists i, j ::
      && 0 <= i < j < |expenses| && !expenses[i].deleted && !expenses[j].deleted
      && expenses[i].currency.Some? && expenses[j].currency.Some?
      && expenses[i].currency != expenses[j].currency
  }

  datatype View = View(owedToMe: map<nat, real>, iOwe: map<nat, real>)

  function Of(amounts: map<nat, real>, user: nat): real {
    if user in amounts then amounts[user] else 0.0
  }

  lemma OneMoreShare(me: nat, myNet: int, shares: seq<Share>, i: nat, pot: real, user: nat)
    requires pot > 0.0 && i < |shares|
    ensures var kept := Kept(me, myNet, shares[i], pot);
            With(SlicesOf(me, myNet, shares[..i + 1], pot), user)
            == With(SlicesOf(me, myNet, shares[..i], pot), user)
               + if kept.Some? && kept.value.user == user then kept.value.amount else 0.0
  {
    var before, kept := SlicesOf(me, myNet, shares[..i], pot), Kept(me, myNet, shares[i], pot);
    assert shares[..i + 1][..i] == shares[..i];
    hide Kept;
    assert SlicesOf(me, myNet, shares[..i + 1], pot) == if kept.Some? then before + [kept.value] else before;
    if kept.Some? {
      assert (before + [kept.value])[..|before|] == before;
    }
  }

  /** Add one expense's slices to a running map, user by user. */
  method AddSlices(me: nat, e: Expense, before: map<nat, real>) returns (after: map<nat, real>)
    ensures forall u: nat :: Of(after, u) == Of(before, u) + With(Slices(me, e), u)
  {
    after := before;
    var myNet, pot := NetOf(e.shares, me), Pot(e.shares);
    for i := 0 to |e.shares|
      invariant forall u: nat :: Of(after, u) == Of(before, u) + With(SlicesOf(me, myNet, e.shares[..i], pot), u)
    {
      forall u: nat {
        OneMoreShare(me, myNet, e.shares, i, pot, u);
      }
      hide With, SlicesOf, Kept, NetOf, Pot;
      var kept := Kept(me, myNet, e.shares[i], pot);
      if kept.Some? {
        var u := kept.value.user;
        after := after[u := Of(after, u) + kept.value.amount];
      }
    }
    assert e.shares[..|e.shares|] == e.shares;
  }

  /** The itemised view of one member; an error when the currencies are mixed. */
  method ItemizedOwed(me: nat, expenses: seq<Expense>) returns (r: Result<View, ()>)
    ensures r.Err? <==> Mixed(expenses)
    ensures r.Ok? ==> forall u: nat ::
              Of(r.value.owedToMe, u) == OwedToMe(me, expenses, u) && Of(r.value.iOwe, u) == IOwe(me, expenses, u)
  {
    var owedToMe: map<nat, real>, iOwe: map<nat, real> := map[], map[];
    var currency: Option<string> := None;
    for i := 0 to |expenses|
      invariant forall u: nat :: Of(owedToMe, u) == OwedToMe(me, expenses[..i], u)
      invariant forall u: nat :: Of(iOwe, u) == IOwe(me, expenses[..i], u)
      invariant forall j | 0 <= j < i && !expenses[j].deleted && expenses[j].currency.Some? ::
                  expenses[j].currency == currency
      invariant currency.Some? ==>
                  exists j :: 0 <= j < i && !expenses[j].deleted && expenses[j].currency == currency
    {
      var e := expenses[i];
      assert expenses[..i + 1][..i] == expenses[..i];
      if !e.deleted {
        if e.currency.Some? && currency.Some? && e.currency != currency {
          return Err(());
        }
        if currency.None? {
          currency := e.currency;
        }
        var myNet := NetOf(e.shares, me);
        if myNet > 0 {
          owedToMe := AddSlices(me, e, owedToMe);
        } else if myNet < 0 {
          iOwe := AddSlices(me, e, iOwe);
        }
      }
    }
    assert expenses[..|expenses|] == expenses;
    return Ok(View(owedToMe, iOwe));
  }

  // ----- the two sides agree

  ghost predicate DistinctUsers(shares: seq<Share>) {
    forall i, j | 0 <= i < j < |shares| :: shares[i].user != shares[j].user
  }

  lemma {:induction false} NetOfSnoc(shares: seq<Share>, user: nat)
    requires DistinctUsers(shares) && shares != []
    ensures var n := |shares| - 1;
            NetOf(shares, user) == if shares[n].user == user then shares[n].net else NetOf(shares[..n], user)
    decreases |shares|
  {
    var n := |shares| - 1;
    if n > 0 {
      assert shares[1..][..n - 1] == shares[..n][1..];
      NetOfSnoc(shares[1..], user);
    }
  }

  lemma {:induction false} NetOfAbsent(shares: seq<Share>, user: nat)
    requires forall i | 0 <= i < |shares| :: shares[i].user != user
    ensures NetOf(shares, user) == 0
    decreases |shares|
  {
    if shares != [] {
      NetOfAbsent(shares[1..], user);
    }
  }

  /** With each user once in an expense, the slices with a user are the one slice of their share. */
  lemma {:induction false} SliceWith(me: nat, myNet: int, shares: seq<Share>, pot: real, user: nat)
    requires DistinctUsers(shares) && pot > 0.0
    ensures var kept := Kept(me, myNet, Share(user, NetOf(shares, user)), pot);
            With(SlicesOf(me, myNet, shares, pot), user) == if kept.Some? then kept.value.amount else 0.0
  {
    if shares == [] {
    } else {
      var n := |shares| - 1;
      var front, last := shares[..n], shares[n];
      SliceWith(me, myNet, front, pot, user);
      NetOfSnoc(shares, user);
      if last.user == user {
        NetOfAbsent(front, user);
      }
      var before, kept := SlicesOf(me, myNet, front, pot), Kept(me, myNet, last, pot);
      assert SlicesOf(me, myNet, shares, pot) == if kept.Some? then before + [kept.value] else before;
      assert last == Share(last.user, last.net);
      if kept.Some? {
        assert (before + [kept.value])[..|before|] == before;
      }
    }
  }

  /** What I see you owe me on an expense is what you see you owe me. */
  lemma ExpenseAgrees(a: nat, b: nat, e: Expense)
    requires a != b && DistinctUsers(e.shares)
    ensures (if NetOf(e.shares, a) > 0 then With(Slices(a, e), b) else 0.0)
         == (if NetOf(e.shares, b) < 0 then With(Slices(b, e), a) else 0.0)
  {
    SliceWith(a, NetOf(e.shares, a), e.shares, Pot(e.shares), b);
    SliceWith(b, NetOf(e.shares, b), e.shares, Pot(e.shares), a);
    hide Portion, NetOf, Pot, SlicesOf, With;
  }

  /** Over any list of expenses, what one member's view says the other owes is what the other's
      view says they owe, exactly; so the two nets are opposite. */
  lemma {:induction false} ViewsAgree(a: nat, b: nat, expenses: seq<Expense>)
    requires a != b && forall i | 0 <= i < |expenses| :: DistinctUsers(expenses[i].shares)
    ensures OwedToMe(a, expenses, b) == IOwe(b, expenses, a)
    ensures IOwe(a, expenses, b) == OwedToMe(b, expenses, a)
  {
    if expenses != [] {
      var front, last := expenses[..|expenses| - 1], expenses[|expenses| - 1];
      ViewsAgree(a, b, front);
      ExpenseAgrees(a, b, last);
      ExpenseAgrees(b, a, last);
    }
  }

  // ----- the slices, written out

  /** What one of us owes the other on an expense: the debt, in proportion to the creditor's part
      of all that is owed; nothing when both are on one side. */
  ghost function OwedBetween(mine: int, theirs: int, credit: int): real {
    if credit <= 0 then 0.0
    else if mine > 0 && theirs < 0 then ((-theirs) as real) * (mine as real) / (credit as real)
    else if mine < 0 && theirs > 0 then ((-mine) as real) * (theirs as real) / (credit as real)
    else 0.0
  }

  lemma {:induction false} CreditAddsUp(shares: seq<Share>)
    ensures Credit(shares) == SumBy(shares, (s: Share) => if s.net > 0 then s.net else 0)
  {
    if shares != [] {
      CreditAddsUp(shares[..|shares| - 1]);
    }
  }

  /** Each slice is that amount, and is dropped when it is half a cent or less. */
  lemma SliceMeans(e: Expense, i: nat, j: nat)
    requires DistinctUsers(e.shares) && i < |e.shares| && j < |e.shares| && i != j
    ensures var me, you := e.shares[i], e.shares[j];
            var owed := OwedBetween(me.net, you.net, SumBy(e.shares, (s: Share) => if s.net > 0 then s.net else 0));
            With(Slices(me.user, e), you.user) == if owed > 0.5 then owed else 0.0
  {
    var me, you := e.shares[i], e.shares[j];
    CreditAddsUp(e.shares);
    NetIsListed(e.shares, me.user);
    NetIsListed(e.shares, you.user);
    SliceWith(me.user, me.net, e.shares, Pot(e.shares), you.user);
    assert me.user != you.user;
    hide SlicesOf, With, NetOf, Credit, SumBy;
    PortionIsOwed(me.net, you.net, Credit(e.shares));
  }

  lemma PortionIsOwed(mine: int, theirs: int, credit: int)
    requires mine <= credit && theirs <= credit
    ensures mine > 0 && theirs < 0 ==> Portion(theirs, mine, credit as real) == OwedBetween(mine, theirs, credit)
    ensures mine < 0 && theirs > 0 ==> Portion(mine, theirs, credit as real) == OwedBetween(mine, theirs, credit)
  {}

  /** Nobody else gets a slice. */
  lemma NoSliceWithout(e: Expense, me: nat, user: nat)
    requires DistinctUsers(e.shares)
    requires user == me || forall i | 0 <= i < |e.shares| :: e.shares[i].user != user
    ensures With(Slices(me, e), user) == 0.0
  {
    SliceWith(me, NetOf(e.shares, me), e.shares, Pot(e.shares), user);
    if user != me {
      NetOfAbsent(e.shares, user);
    }
    hide NetOf, SlicesOf, With;
  }

  /** A view's totals: the slices of the expenses that are not deleted, as creditor and as debtor. */
  lemma {:induction false} TotalsAre(me: nat, expenses: seq<Expense>, user: nat)
    ensures OwedToMe(me, expenses, user)
         == TotalBy(expenses, (e: Expense) =>
              if !e.deleted && NetOf(e.shares, me) > 0 then With(Slices(me, e), user) else 0.0)
    ensures IOwe(me, expenses, user)
         == TotalBy(expenses, (e: Expense) =>
              if !e.deleted && NetOf(e.shares, me) < 0 then With(Slices(me, e), user) else 0.0)
  {
    hide NetOf, With, Slices;
    if expenses != [] {
      TotalsAre(me, expenses[..|expenses| - 1], user);
    }
  }

  // ----- my slices make up my balance

  /** The part of one share that stands against my balance: a debt if I am a creditor, a credit
      if I am a debtor. */
  function Against(myNet: int, net: int): int {
    if myNet > 0 then Max(0, -net) else Max(0, net)
  }

  function AgainstAll(myNet: int, shares: seq<Share>): int {
    if shares == [] then 0
    else AgainstAll(myNet, shares[..|shares| - 1]) + Against(myNet, shares[|shares| - 1].net)
  }

  /** How many shares stand against my balance. */
  function Opponents(myNet: int, shares: seq<Share>): nat {
    if shares == [] then 0
    else
      Opponents(myNet, shares[..|shares| - 1]) + if Against(myNet, shares[|shares| - 1].net) > 0 then 1 else 0
  }

  /** My part of the pot. */
  function Ratio(myNet: int, pot: real): real
    requires pot > 0.0
  {
    Abs(myNet) as real / pot
  }

  function Scaled(cents: int, ratio: real): real {
    (cents as real) * ratio
  }

  lemma ScaledAdds(a: int, b: int, ratio: real)
    ensures Scaled(a + b, ratio) == Scaled(a, ratio) + Scaled(b, ratio)
    ensures Scaled(0, ratio) == 0.0
  {
    assert (a + b) as real == a as real + b as real;
  }

  lemma PortionIsProportional(debtorNet: int, creditorNet: int, pot: real)
    requires pot > 0.0
    ensures Portion(debtorNet, creditorNet, pot) == Scaled(-debtorNet, creditorNet as real / pot)
    ensures Portion(debtorNet, creditorNet, pot) == Scaled(creditorNet, ((-debtorNet) as real) / pot)
  {
    var d, c := (-debtorNet) as real, creditorNet as real;
    assert -(debtorNet as real) == d;
    assert d * (c / pot) == c * (d / pot);
  }

  /** One share: its exact portion is kept, unless it is half a cent or less. */
  lemma KeptIsExact(me: nat, myNet: int, other: Share, pot: real)
    requires pot > 0.0 && myNet != 0 && (other.user == me ==> other.net == myNet)
    ensures var exact, kept := Scaled(Against(myNet, other.net), Ratio(myNet, pot)), Kept(me, myNet, other, pot);
            && (kept.Some? ==> kept.value.amount == exact && Against(myNet, other.net) > 0)
            && (kept.None? ==> 0.0 <= exact <= HALF_CENT)
            && (Against(myNet, other.net) == 0 ==> exact == 0.0)
  {
    var ratio := Ratio(myNet, pot);
    ScaledAdds(0, 0, ratio);
    if other.user != me && Against(myNet, other.net) > 0 {
      PortionIsProportional(other.net, myNet, pot);
      PortionIsProportional(myNet, other.net, pot);
      assert Abs(myNet) as real == if myNet > 0 then myNet as real else (-myNet) as real;
      PositiveRatio(Against(myNet, other.net), Abs(myNet), pot);
      hide Scaled, Portion;
    }
  }

  lemma PositiveRatio(cents: int, my: int, pot: real)
    requires cents >= 0 && my >= 0 && pot > 0.0
    ensures Scaled(cents, my as real / pot) >= 0.0
  {
    assert my as real / pot >= 0.0;
  }

  lemma {:induction false} SlicesNearExact(me: nat, myNet: int, shares: seq<Share>, pot: real)
    requires pot > 0.0 && myNet != 0
    requires forall i | 0 <= i < |shares| && shares[i].user == me :: shares[i].net == myNet
    ensures var exact := Scaled(AgainstAll(myNet, shares), Ratio(myNet, pot));
            var kept := Amount(SlicesOf(me, myNet, shares, pot));
            exact - Scaled(Opponents(myNet, shares), HALF_CENT) <= kept <= exact
  {
    var ratio := Ratio(myNet, pot);
    hide Scaled, Kept, Against, Ratio, Portion;
    if shares == [] {
      ScaledAdds(0, 0, ratio);
      ScaledAdds(0, 0, HALF_CENT);
    } else {
      var n := |shares| - 1;
      var front, last := shares[..n], shares[n];
      SlicesNearExact(me, myNet, front, pot);
      KeptIsExact(me, myNet, last, pot);
      AgainstOneMore(myNet, shares, ratio);
      var before, kept := SlicesOf(me, myNet, front, pot), Kept(me, myNet, last, pot);
      assert SlicesOf(me, myNet, shares, pot) == if kept.Some? then before + [kept.value] else before;
      if kept.Some? {
        AmountOfSnoc(before, kept.value);
      }
      hide SlicesOf, Amount, AgainstAll, Opponents, NetOf;
    }
  }

  lemma AgainstOneMore(myNet: int, shares: seq<Share>, ratio: real)
    requires shares != []
    ensures var front, one := shares[..|shares| - 1], Against(myNet, shares[|shares| - 1].net);
            && Scaled(AgainstAll(myNet, shares), ratio) == Scaled(AgainstAll(myNet, front), ratio) + Scaled(one, ratio)
            && Scaled(Opponents(myNet, shares), HALF_CENT)
               == Scaled(Opponents(myNet, front), HALF_CENT) + if one > 0 then HALF_CENT else 0.0
  {
    var front, one := shares[..|shares| - 1], Against(myNet, shares[|shares| - 1].net);
    ScaledAdds(AgainstAll(myNet, front), one, ratio);
    ScaledAdds(Opponents(myNet, front), 1, HALF_CENT);
    HalfCentScales();
    hide Scaled, Against;
  }

  lemma AmountOfSnoc(slices: seq<Slice>, more: Slice)
    ensures Amount(slices + [more]) == Amount(slices) + more.amount
  {
    assert (slices + [more])[..|slices|] == slices;
  }

  lemma HalfCentScales()
    ensures Scaled(1, HALF_CENT) == HALF_CENT
  {}

  lemma {:induction false} ZeroSumBalances(shares: seq<Share>)
    ensures Credit(shares) - Debit(shares) == NetSum(shares)
  {
    if shares != [] {
      ZeroSumBalances(shares[..|shares| - 1]);
    }
  }

  function NetSum(shares: seq<Share>): int {
    if shares == [] then 0 else NetSum(shares[..|shares| - 1]) + shares[|shares| - 1].net
  }

  lemma {:induction false} AgainstIsASide(myNet: int, shares: seq<Share>)
    ensures AgainstAll(myNet, shares) == if myNet > 0 then Debit(shares) else Credit(shares)
  {
    if shares != [] {
      AgainstIsASide(myNet, shares[..|shares| - 1]);
    }
  }

  lemma {:induction false} NetIsListed(shares: seq<Share>, user: nat)
    requires DistinctUsers(shares)
    ensures forall i | 0 <= i < |shares| && shares[i].user == user :: shares[i].net == NetOf(shares, user)
    ensures NetOf(shares, user) <= Credit(shares)
  {
    if shares != [] {
      NetIsListed(shares[..|shares| - 1], user);
      NetOfSnoc(shares, user);
      if shares[|shares| - 1].user == user {
        forall i | 0 <= i < |shares| - 1 ensures shares[i].user != user {}
      }
    }
  }

  /** On a zero-sum expense my slices make up my whole balance, short by at most half a cent for
      each user on the other side. */
  lemma SlicesMakeUpMyBalance(me: nat, e: Expense)
    requires DistinctUsers(e.shares) && NetSum(e.shares) == 0 && NetOf(e.shares, me) != 0
    ensures var myNet, kept := NetOf(e.shares, me), Amount(Slices(me, e));
            Abs(myNet) as real - (Opponents(myNet, e.shares) as real) * 0.5 <= kept <= Abs(myNet) as real
  {
    assert HALF_CENT == 0.5;
    var myNet, pot := NetOf(e.shares, me), Pot(e.shares);
    NetIsListed(e.shares, me);
    ZeroSumBalances(e.shares);
    AgainstIsASide(myNet, e.shares);
    SlicesNearExact(me, myNet, e.shares, pot);
    assert Slices(me, e) == SlicesOf(me, myNet, e.shares, pot);
    if Credit(e.shares) == 0 {
      NetNotBelowDebit(e.shares, me);
    }
    WholePot(Credit(e.shares), Abs(myNet));
    assert Scaled(Opponents(myNet, e.shares), HALF_CENT) == (Opponents(myNet, e.shares) as real) * 0.5;
    hide Scaled, Slices, SlicesOf, Amount, NetOf, Credit, Debit, AgainstAll, Opponents;
  }

  lemma WholePot(pot: int, my: int)
    requires pot > 0
    ensures Scaled(pot, my as real / (pot as real)) == my as real
  {}

  lemma {:induction false} NetNotBelowDebit(shares: seq<Share>, user: nat)
    requires DistinctUsers(shares)
    ensures -NetOf(shares, user) <= Debit(shares)
  {
    if shares != [] {
      NetNotBelowDebit(shares[..|shares| - 1], user);
      NetOfSnoc(shares, user);
    }
  }

  // ----- and over any list of expenses

  /** What the users owe me on balance, over all expenses: the nets of my view added up. */
  function ViewNet(me: nat, expenses: seq<Expense>, users: seq<nat>): real {
    if users == [] then 0.0
    else
      var last := users[|users| - 1];
      ViewNet(me, expenses, users[..|users| - 1]) + OwedToMe(me, expenses, last) - IOwe(me, expenses, last)
  }

  /** My net balances added up. */
  function MyNet(me: nat, expenses: seq<Expense>): int {
    if expenses == [] then 0
    else
      var last := expenses[|expenses| - 1];
      MyNet(me, expenses[..|expenses| - 1]) + if last.deleted then 0 else NetOf(last.shares, me)
  }

  /** How many shares stand against my balances. */
  function AllOpponents(me: nat, expenses: seq<Expense>): nat {
    if expenses == [] then 0
    else
      var last := expenses[|expenses| - 1];
      AllOpponents(me, expenses[..|expenses| - 1])
      + if last.deleted || NetOf(last.shares, me) == 0 then 0 else Opponents(NetOf(last.shares, me), last.shares)
  }

  function TotalWith(slices: seq<Slice>, users: seq<nat>): real {
    if users == [] then 0.0 else TotalWith(slices, users[..|users| - 1]) + With(slices, users[|users| - 1])
  }

  ghost predicate Distinct(users: seq<nat>) {
    forall i, j | 0 <= i < j < |users| :: users[i] != users[j]
  }

  /** Zero-sum, each user once, and every user among those listed. */
  ghost predicate Balanced(e: Expense, users: seq<nat>) {
    && DistinctUsers(e.shares) && NetSum(e.shares) == 0
    && forall i | 0 <= i < |e.shares| :: e.shares[i].user in users
  }

  lemma {:induction false} TotalWithSnoc(slices: seq<Slice>, more: Slice, users: seq<nat>)
    requires Distinct(users)
    ensures TotalWith(slices + [more], users)
         == TotalWith(slices, users) + if more.user in users then more.amount else 0.0
  {
    if users != [] {
      var front, last := users[..|users| - 1], users[|users| - 1];
      assert users == front + [last] && last !in front;
      TotalWithSnoc(slices, more, front);
      assert (slices + [more])[..|slices|] == slices;
    }
  }

  /** Every slice belongs to one listed user. */
  lemma {:induction false} TotalWithIsAmount(slices: seq<Slice>, users: seq<nat>)
    requires Distinct(users) && forall k | 0 <= k < |slices| :: slices[k].user in users
    ensures TotalWith(slices, users) == Amount(slices)
  {
    if slices == [] {
      NoSlicesTotal(users);
    } else {
      var front, last := slices[..|slices| - 1], slices[|slices| - 1];
      TotalWithIsAmount(front, users);
      TotalWithSnoc(front, last, users);
      assert slices == front + [last];
    }
  }

  lemma {:induction false} NoSlicesTotal(users: seq<nat>)
    ensures TotalWith([], users) == 0.0
  {
    if users != [] {
      NoSlicesTotal(users[..|users| - 1]);
    }
  }

  lemma {:induction false} SlicesHaveUsers(me: nat, myNet: int, shares: seq<Share>, pot: real, users: seq<nat>)
    requires pot > 0.0 && forall i | 0 <= i < |shares| :: shares[i].user in users
    ensures forall k | 0 <= k < |SlicesOf(me, myNet, shares, pot)| :: SlicesOf(me, myNet, shares, pot)[k].user in users
  {
    hide Kept;
    if shares != [] {
      SlicesHaveUsers(me, myNet, shares[..|shares| - 1], pot, users);
    }
  }

  /** One more expense adds its slices, for or against me. */
  lemma {:induction false} ViewNetOneMore(me: nat, expenses: seq<Expense>, users: seq<nat>)
    requires expenses != []
    ensures var front, last := expenses[..|expenses| - 1], expenses[|expenses| - 1];
            var myNet, more := NetOf(last.shares, me), TotalWith(Slices(me, last), users);
            ViewNet(me, expenses, users)
            == ViewNet(me, front, users)
               + if last.deleted || myNet == 0 then 0.0 else if myNet > 0 then more else -more
  {
    hide NetOf, Slices, With;
    if users != [] {
      ViewNetOneMore(me, expenses, users[..|users| - 1]);
    }
  }

  lemma {:induction false} NothingViewed(me: nat, users: seq<nat>)
    ensures ViewNet(me, [], users) == 0.0
  {
    if users != [] {
      NothingViewed(me, users[..|users| - 1]);
    }
  }

  ghost predicate Near(a: real, b: real, halves: nat) {
    -(halves as real) * 0.5 <= a - b <= (halves as real) * 0.5
  }

  lemma NearAdds(a: real, b: real, m: nat, c: real, d: real, n: nat)
    requires Near(a, b, m) && Near(c, d, n)
    ensures Near(a + c, b + d, m + n)
  {
    assert (m + n) as real == m as real + n as real;
  }

  /** One expense on its own. */
  lemma ExpenseNearBalance(me: nat, e: Expense, users: seq<nat>)
    requires Balanced(e, users) && Distinct(users) && NetOf(e.shares, me) != 0
    ensures var myNet, more := NetOf(e.shares, me), TotalWith(Slices(me, e), users);
            Near(if myNet > 0 then more else -more, myNet as real, Opponents(myNet, e.shares))
  {
    var myNet := NetOf(e.shares, me);
    SlicesMakeUpMyBalance(me, e);
    SlicesHaveUsers(me, myNet, e.shares, Pot(e.shares), users);
    TotalWithIsAmount(Slices(me, e), users);
    assert Abs(myNet) as real == if myNet > 0 then myNet as real else -(myNet as real);
    hide TotalWith, Amount, NetOf, Opponents, SlicesOf, Pot;
  }

  /** Over any list of zero-sum expenses what my view says I am owed, less what it says I owe,
      is my net balance, to within half a cent for each share on the other side. */
  lemma {:induction false} ViewIsMyBalance(me: nat, expenses: seq<Expense>, users: seq<nat>)
    requires Distinct(users)
    requires forall i | 0 <= i < |expenses| && !expenses[i].deleted :: Balanced(expenses[i], users)
    ensures Near(ViewNet(me, expenses, users), MyNet(me, expenses) as real, AllOpponents(me, expenses))
  {
    hide NetOf, Slices, TotalWith, Scaled, Opponents, Balanced, Near;
    if expenses == [] {
      NothingViewed(me, users);
      NearZero();
    } else {
      var front, last := expenses[..|expenses| - 1], expenses[|expenses| - 1];
      ViewIsMyBalance(me, front, users);
      ViewNetOneMore(me, expenses, users);
      var myNet, more := NetOf(last.shares, me), TotalWith(Slices(me, last), users);
      if !last.deleted && myNet != 0 {
        ExpenseNearBalance(me, last, users);
        NearAdds(ViewNet(me, front, users), MyNet(me, front) as real, AllOpponents(me, front),
                 if myNet > 0 then more else -more, myNet as real, Opponents(myNet, last.shares));
        assert MyNet(me, expenses) as real == MyNet(me, front) as real + myNet as real;
      }
    }
  }

  lemma NearZero()
    ensures Near(0.0, 0.0, 0)
  {}
}
