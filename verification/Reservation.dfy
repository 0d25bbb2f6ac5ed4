/** The repayment suggestion run: charges are first netted against amounts already linked to
    them, then each inflow in turn reserves what it is allocated, so that a later inflow finds
    only what is left. */
module Reservation {
  import opened Common
  import opened Allocation

  /** A stored link; `trusted` is the cents it is trusted for. */
  datatype Link = Link(inflow: Option<nat>, expense: Option<nat>, trusted: int)

  datatype Inflow = Inflow(id: nat, person: string, cents: int)

  datatype Suggestion = Suggestion(inflow: Inflow, owed: int, allocations: seq<Allocated>,
                                   matched: int, remainder: int, kind: Kind)

  type Charges = map<string, seq<Expense>>

  datatype State = State(charges: Charges, suggestions: seq<Suggestion>)

  // ----- netting against existing links

  /** The trusted cents linked to one expense. */
  function LinkedCents(links: seq<Link>, id: nat): nat {
    if links == [] then 0
    else
      var last := links[|links| - 1];
      LinkedCents(links[..|links| - 1], id)
      + if last.expense == Some(id) && last.trusted > 0 then last.trusted else 0
  }

  function LinkedInflows(links: seq<Link>): set<nat> {
    set l | l in links && l.inflow.Some? :: l.inflow.value
  }

  function Net(e: Expense, links: seq<Link>): Expense {
    e.(remaining := Max(0, -e.cents - LinkedCents(links, e.id)))
  }

  function NetAll(es: seq<Expense>, links: seq<Link>): (r: seq<Expense>)
    ensures |r| == |es| && forall i | 0 <= i < |es| :: r[i] == Net(es[i], links)
  {
    seq(|es|, i requires 0 <= i < |es| => Net(es[i], links))
  }

  function Netted(fronted: Charges, links: seq<Link>): Charges {
    map p | p in fronted :: NetAll(fronted[p], links)
  }

  // ----- reserving what one inflow is allocated

  /** The position an index by id ends up with: the last charge carrying the id. */
  function LastWithId(es: seq<Expense>, id: nat): (r: Option<nat>)
    ensures r.Some? ==> r.value < |es| && es[r.value].id == id
    ensures r.None? ==> forall i | 0 <= i < |es| :: es[i].id != id
  {
    if es == [] then None
    else if es[|es| - 1].id == id then Some(|es| - 1)
    else LastWithId(es[..|es| - 1], id)
  }

  function ReserveOne(es: seq<Expense>, a: Allocated): (r: seq<Expense>)
    ensures |r| == |es| && forall i | 0 <= i < |es| :: r[i].id == es[i].id
  {
    var i := LastWithId(es, a.id);
    if i.None? then es
    else es[i.value := es[i.value].(remaining := Max(0, es[i.value].remaining - a.cents))]
  }

  function Reserve(es: seq<Expense>, allocations: seq<Allocated>): (r: seq<Expense>)
    ensures |r| == |es| && forall i | 0 <= i < |es| :: r[i].id == es[i].id
  {
    if allocations == [] then es
    else ReserveOne(Reserve(es, allocations[..|allocations| - 1]), allocations[|allocations| - 1])
  }

  // ----- one inflow, and the whole run

  /** More than the debt plus a fifth of it, or plus ten dollars if that is more. */
  predicate TooLarge(cents: int, owed: int) {
    5 * cents > 5 * owed + Max(5000, owed)
  }

  function ChargesOf(charges: Charges, person: string): seq<Expense> {
    if person in charges then charges[person] else []
  }

  predicate Surfaces(inf: Inflow, owed: map<string, int>, excluded: set<nat>, kind: Kind) {
    && inf.id !in excluded
    && inf.person in owed && owed[inf.person] > 50
    && !(kind == Over && TooLarge(inf.cents, owed[inf.person]))
  }

  function Step(st: State, inf: Inflow, owed: map<string, int>, excluded: set<nat>): State {
    var es := ChargesOf(st.charges, inf.person);
    var o := AllocationFor(inf.cents, es);
    if !Surfaces(inf, owed, excluded, o.kind) then st
    else
      var charges := if inf.person in st.charges
                     then st.charges[inf.person := Reserve(es, o.allocations)] else st.charges;
      State(charges, st.suggestions
                     + [Suggestion(inf, owed[inf.person], o.allocations, o.matched, inf.cents - o.matched, o.kind)])
  }

  function Steps(st: State, inflows: seq<Inflow>, owed: map<string, int>, excluded: set<nat>): State {
    if inflows == [] then st
    else Step(Steps(st, inflows[..|inflows| - 1], owed, excluded), inflows[|inflows| - 1], owed, excluded)
  }

  // ----- the run as the source performs it

  /** Add up the trusted cents by expense, and collect the inflows already linked. */
  method IndexLinks(links: seq<Link>) returns (linked: map<nat, int>, inflows: set<nat>)
    ensures forall id: nat :: LinkedCents(links, id) == if id in linked then linked[id] else 0
    ensures inflows == LinkedInflows(links)
  {
    linked, inflows := map[], {};
    for i := 0 to |links|
      invariant forall id: nat :: LinkedCents(links[..i], id) == if id in linked then linked[id] else 0
      invariant inflows == LinkedInflows(links[..i])
    {
      var l := links[i];
      assert links[..i + 1][..i] == links[..i];
      assert links[..i + 1] == links[..i] + [l];
      if l.inflow.Some? {
        inflows := inflows + {l.inflow.value};
      }
      if l.expense.Some? && l.trusted > 0 {
        var id := l.expense.value;
        linked := linked[id := (if id in linked then linked[id] else 0) + l.trusted];
      }
    }
    assert links[..|links|] == links;
  }

  /** Net one person's charges, one at a time. */
  method NetPerson(fronted: seq<Expense>, linked: map<nat, int>, ghost links: seq<Link>)
    returns (es: seq<Expense>)
    requires forall id: nat :: LinkedCents(links, id) == if id in linked then linked[id] else 0
    ensures es == NetAll(fronted, links)
  {
    es := fronted;
    for i := 0 to |es|
      invariant |es| == |fronted|
      invariant forall j | 0 <= j < |es| :: es[j] == if j < i then Net(fronted[j], links) else fronted[j]
    {
      var e := es[i];
      es := es[i := e.(remaining := Max(0, -e.cents - if e.id in linked then linked[e.id] else 0))];
    }
  }

  /** Index a person's charges by id; the last charge with an id wins. */
  method IndexCharges(es: seq<Expense>) returns (index: map<nat, nat>)
    ensures forall id: nat :: LastWithId(es, id) == if id in index then Some(index[id]) else None
  {
    index := map[];
    for i := 0 to |es|
      invariant forall id: nat :: LastWithId(es[..i], id) == if id in index then Some(index[id]) else None
    {
      assert es[..i + 1][..i] == es[..i];
      index := index[es[i].id := i];
    }
    assert es[..|es|] == es;
  }

  lemma {:induction false} LastWithIdByIds(a: seq<Expense>, b: seq<Expense>, id: nat)
    requires |a| == |b| && forall i | 0 <= i < |a| :: a[i].id == b[i].id
    ensures LastWithId(a, id) == LastWithId(b, id)
  {
    if a != [] {
      LastWithIdByIds(a[..|a| - 1], b[..|b| - 1], id);
    }
  }

  /** Each charge's `remaining` is updated in place, so what one inflow reserves is gone for
      every later one. */
  class SuggestionRun {
    var charges: Charges
    var excluded: set<nat>
    var suggestions: seq<Suggestion>

    constructor (fronted: Charges)
      ensures charges == fronted && excluded == {} && suggestions == []
    {
      charges, excluded, suggestions := fronted, {}, [];
    }

    ghost function Abstract(): State
      reads this
    {
      State(charges, suggestions)
    }

    method NetAgainstLinks(links: seq<Link>, dismissed: set<nat>)
      modifies this
      ensures charges == Netted(old(charges), links)
      ensures excluded == LinkedInflows(links) + dismissed
      ensures suggestions == old(suggestions)
    {
      var linked, inflows := IndexLinks(links);
      excluded := inflows + dismissed;
      var people := charges.Keys;
      while people != {}
        invariant people <= charges.Keys == old(charges).Keys
        invariant forall p | p in charges ::
                    charges[p] == if p in people then old(charges)[p] else NetAll(old(charges)[p], links)
        invariant excluded == inflows + dismissed && suggestions == old(suggestions)
        decreases people
      {
        var p :| p in people;
        var es := NetPerson(charges[p], linked, links);
        charges := charges[p := es];
        people := people - {p};
      }
    }

    /** Subtract every allocation from the charge the index gives for its id. */
    method ReserveFor(person: string, allocations: seq<Allocated>)
      requires person in charges
      modifies this`charges
      ensures charges == old(charges)[person := Reserve(old(charges)[person], allocations)]
    {
      hide LastWithId;
      var index := IndexCharges(charges[person]);
      for k := 0 to |allocations|
        invariant charges == old(charges)[person := Reserve(old(charges)[person], allocations[..k])]
      {
        assert allocations[..k + 1][..k] == allocations[..k];
        var es, a := charges[person], allocations[k];
        LastWithIdByIds(es, old(charges)[person], a.id);
        if a.id in index {
          var e := es[index[a.id]];
          charges := charges[person := es[index[a.id] := e.(remaining := Max(0, e.remaining - a.cents))]];
        }
      }
      assert allocations[..|allocations|] == allocations;
    }

    /** Consider one inflow: allocate it, and reserve and record the result if it surfaces. */
    method Consider(inf: Inflow, owed: map<string, int>)
      modifies this`charges, this`suggestions
      ensures Abstract() == Step(old(Abstract()), inf, owed, excluded)
    {
      hide AllocationFor, Reserve, TooLarge;
      if inf.id in excluded || inf.person !in owed || owed[inf.person] <= 50 {
        return;
      }
      var es := ChargesOf(charges, inf.person);
      var o := AllocateInflow(inf.cents, es);
      if o.kind == Over && TooLarge(inf.cents, owed[inf.person]) {
        return;
      }
      if inf.person in charges {
        ReserveFor(inf.person, o.allocations);
      }
      suggestions := suggestions
        + [Suggestion(inf, owed[inf.person], o.allocations, o.matched, inf.cents - o.matched, o.kind)];
    }

    method ConsiderAll(inflows: seq<Inflow>, owed: map<string, int>)
      modifies this`charges, this`suggestions
      ensures Abstract() == Steps(old(Abstract()), inflows, owed, excluded)
    {
      hide Step;
      for i := 0 to |inflows|
        invariant Abstract() == Steps(old(Abstract()), inflows[..i], owed, excluded)
      {
        assert inflows[..i + 1][..i] == inflows[..i];
        Consider(inflows[i], owed);
      }
      assert inflows[..|inflows|] == inflows;
    }
  }

  // ----- what the run keeps

  /** The cents a list of allocations gives to one charge. */
  function GivenTo(allocations: seq<Allocated>, id: nat): int {
    if allocations == [] then 0
    else
      GivenTo(allocations[..|allocations| - 1], id)
      + if allocations[|allocations| - 1].id == id then allocations[|allocations| - 1].cents else 0
  }

  /** The cents suggested for one of a person's charges, over all suggestions. */
  function SuggestedFor(suggestions: seq<Suggestion>, person: string, id: nat): int {
    if suggestions == [] then 0
    else
      var last := suggestions[|suggestions| - 1];
      SuggestedFor(suggestions[..|suggestions| - 1], person, id)
      + if last.inflow.person == person then GivenTo(last.allocations, id) else 0
  }

  lemma {:induction false} NothingGiven(allocations: seq<Allocated>, id: nat)
    requires forall j | 0 <= j < |allocations| :: allocations[j].id != id
    ensures GivenTo(allocations, id) == 0
  {
    if allocations != [] {
      NothingGiven(allocations[..|allocations| - 1], id);
    }
  }

  ghost predicate AllCovered(es: seq<Expense>, allocations: seq<Allocated>) {
    forall j | 0 <= j < |allocations| :: Covered(es, allocations[j])
  }

  /** Reserving sound allocations subtracts exactly what each charge was given: the clamp at
      zero never fires. */
  lemma {:induction false} ReserveSubtracts(es: seq<Expense>, allocations: seq<Allocated>)
    requires DistinctIds(es) && DistinctTargets(allocations) && AllCovered(es, allocations)
    ensures forall i | 0 <= i < |es| ::
              && Reserve(es, allocations)[i]
                 == es[i].(remaining := es[i].remaining - GivenTo(allocations, es[i].id))
              && Min(0, es[i].remaining) <= Reserve(es, allocations)[i].remaining <= es[i].remaining
  {
    if allocations == [] {
    } else {
      var front, a := allocations[..|allocations| - 1], allocations[|allocations| - 1];
      ReserveSubtracts(es, front);
      NothingGiven(front, a.id);
      var before := Reserve(es, front);
      assert Reserve(es, allocations) == ReserveOne(before, a);
      assert forall id :: GivenTo(allocations, id) == GivenTo(front, id) + if a.id == id then a.cents else 0;
      assert Covered(es, a);
      hide Reserve, GivenTo, DistinctTargets, ReserveOne;
      ReserveOneSubtracts(es, before, a);
    }
  }

  lemma ReserveOneSubtracts(es: seq<Expense>, before: seq<Expense>, a: Allocated)
    requires DistinctIds(es) && Covered(es, a) && |before| == |es|
    requires forall i | 0 <= i < |es| :: before[i].id == es[i].id
    requires forall i | 0 <= i < |es| && es[i].id == a.id :: before[i].remaining == es[i].remaining
    ensures forall i | 0 <= i < |es| ::
              ReserveOne(before, a)[i]
              == before[i].(remaining := before[i].remaining - if es[i].id == a.id then a.cents else 0)
    ensures forall i | 0 <= i < |es| && es[i].id == a.id ::
              0 <= ReserveOne(before, a)[i].remaining <= es[i].remaining
  {
    var k :| 0 <= k < |es| && es[k].id == a.id && 0 < a.cents <= es[k].remaining;
    assert LastWithId(before, a.id) == Some(k);
    hide LastWithId;
  }

  /** Every charge is what it was at the start, less what has been suggested for it. */
  ghost predicate Balanced(initial: Charges, st: State) {
    && st.charges.Keys == initial.Keys
    && forall p | p in initial ::
         && |st.charges[p]| == |initial[p]|
         && forall i | 0 <= i < |initial[p]| ::
              && st.charges[p][i].remaining >= 0
              && st.charges[p][i] == initial[p][i].(
                   remaining := initial[p][i].remaining - SuggestedFor(st.suggestions, p, initial[p][i].id))
  }

  ghost predicate WellKept(charges: Charges) {
    forall p | p in charges ::
      DistinctIds(charges[p]) && forall i | 0 <= i < |charges[p]| :: charges[p][i].remaining >= 0
  }

  lemma StepBalances(initial: Charges, st: State, inf: Inflow, owed: map<string, int>, excluded: set<nat>)
    requires WellKept(initial) && Balanced(initial, st) && inf.cents > 0
    ensures Balanced(initial, Step(st, inf, owed, excluded))
  {
    hide AllocationFor, Reserve, GivenTo, AllocatedCents, Outstanding;
    var es := ChargesOf(st.charges, inf.person);
    AllocationIsSound(inf.cents, es);
    var o := AllocationFor(inf.cents, es);
    var next := Step(st, inf, owed, excluded);
    if next != st {
      assert next.suggestions[..|st.suggestions|] == st.suggestions;
      if inf.person in initial {
        assert DistinctIds(es);
        ReserveSubtracts(es, o.allocations);
      }
    }
  }

  /** Over a whole run of positive inflows, whatever their order and whoever they come from:
      initial remaining equals what was suggested plus what remains, and neither goes below zero. */
  lemma {:induction false} RunBalances(initial: Charges, inflows: seq<Inflow>,
                                       owed: map<string, int>, excluded: set<nat>)
    requires WellKept(initial)
    requires forall k | 0 <= k < |inflows| :: inflows[k].cents > 0
    ensures Balanced(initial, Steps(State(initial, []), inflows, owed, excluded))
  {
    if inflows == [] {
    } else {
      var front := inflows[..|inflows| - 1];
      RunBalances(initial, front, owed, excluded);
      StepBalances(initial, Steps(State(initial, []), front, owed, excluded),
                   inflows[|inflows| - 1], owed, excluded);
    }
  }

  /** No charge is booked twice: the cents linked to it before plus everything suggested for it
      never exceed the charge, or what was linked to it already if that was more. */
  lemma NoDoubleBooking(fronted: Charges, links: seq<Link>, inflows: seq<Inflow>,
                        owed: map<string, int>, excluded: set<nat>, person: string, i: nat)
    requires forall p | p in fronted :: DistinctIds(fronted[p])
    requires forall k | 0 <= k < |inflows| :: inflows[k].cents > 0
    requires person in fronted && i < |fronted[person]|
    ensures var st := Steps(State(Netted(fronted, links), []), inflows, owed, excluded);
            var e := fronted[person][i];
            var linked := SumBy(links, (l: Link) => if l.expense == Some(e.id) && l.trusted > 0 then l.trusted else 0);
            var suggested := SuggestedFor(st.suggestions, person, e.id);
            && person in st.charges && i < |st.charges[person]|
            && st.charges[person][i] == e.(remaining := Max(0, -e.cents - linked) - suggested)
            && st.charges[person][i].remaining >= 0
            && linked + suggested <= Max(-e.cents, linked)
  {
    hide *;
    var initial := Netted(fronted, links);
    NettedIsWellKept(fronted, links);
    NettedAt(fronted, links, person, i);
    LinkedAddsUp(links, fronted[person][i].id);
    RunBalances(initial, inflows, owed, excluded);
    BalancedAt(initial, Steps(State(initial, []), inflows, owed, excluded), person, i);
  }

  /** The cents linked to an expense: the trusted cents of its links, where there are any. */
  lemma {:induction false} LinkedAddsUp(links: seq<Link>, id: nat)
    ensures LinkedCents(links, id)
         == SumBy(links, (l: Link) => if l.expense == Some(id) && l.trusted > 0 then l.trusted else 0)
  {
    if links != [] {
      LinkedAddsUp(links[..|links| - 1], id);
    }
  }

  lemma NettedAt(fronted: Charges, links: seq<Link>, person: string, i: nat)
    requires person in fronted && i < |fronted[person]|
    ensures var netted, e := Netted(fronted, links), fronted[person][i];
            && person in netted && i < |netted[person]|
            && netted[person][i] == e.(remaining := Max(0, -e.cents - LinkedCents(links, e.id)))
            && LinkedCents(links, e.id) + netted[person][i].remaining <= Max(-e.cents, LinkedCents(links, e.id))
  {
    hide LinkedCents;
  }

  lemma BalancedAt(initial: Charges, st: State, person: string, i: nat)
    requires Balanced(initial, st) && person in initial && i < |initial[person]|
    ensures var e := initial[person][i];
            && person in st.charges && i < |st.charges[person]| && st.charges[person][i].remaining >= 0
            && st.charges[person][i] == e.(remaining := e.remaining - SuggestedFor(st.suggestions, person, e.id))
  {
    hide SuggestedFor;
  }

  lemma NettedIsWellKept(fronted: Charges, links: seq<Link>)
    requires forall p | p in fronted :: DistinctIds(fronted[p])
    ensures WellKept(Netted(fronted, links))
  {
    hide LinkedCents;
    forall p | p in fronted ensures DistinctIds(NetAll(fronted[p], links)) {
      assert DistinctIds(fronted[p]);
    }
  }

  // ----- which inflows are suggested

  /** More than ten dollars above the debt, and more than a fifth of it. */
  ghost predicate FarAbove(cents: int, owed: int) {
    cents - owed > 1000 && 5 * (cents - owed) > owed
  }

  /** The allocation is recorded with the inflow and the debt, and reserved; nothing else changes. */
  ghost predicate Suggests(before: State, after: State, inf: Inflow, debt: int, o: Outcome) {
    && after.suggestions
       == before.suggestions + [Suggestion(inf, debt, o.allocations, o.matched, inf.cents - o.matched, o.kind)]
    && after.charges.Keys == before.charges.Keys
    && (forall p | p in before.charges && p != inf.person :: after.charges[p] == before.charges[p])
    && (inf.person in before.charges ==>
          after.charges[inf.person] == Reserve(before.charges[inf.person], o.allocations))
  }

  /** Each inflow of a run adds one suggestion, exactly when no link names it, it has not been
      dismissed, its person owes more than half a dollar, and it is not both over and far above
      the debt. Otherwise it changes nothing. */
  lemma EligibleInflowsAreSuggested(st: State, links: seq<Link>, dismissed: set<nat>,
                                    inflows: seq<Inflow>, owed: map<string, int>, k: nat)
    requires k < |inflows|
    ensures var excluded := LinkedInflows(links) + dismissed;
            var before, after := Steps(st, inflows[..k], owed, excluded), Steps(st, inflows[..k + 1], owed, excluded);
            var inf := inflows[k];
            var o := AllocationFor(inf.cents, if inf.person in before.charges then before.charges[inf.person] else []);
            if && (forall l | l in links :: l.inflow != Some(inf.id))
               && inf.id !in dismissed
               && inf.person in owed && owed[inf.person] > 50
               && !(o.kind == Over && FarAbove(inf.cents, owed[inf.person]))
            then Suggests(before, after, inf, owed[inf.person], o)
            else after == before
  {
    hide *;
    var excluded := LinkedInflows(links) + dismissed;
    StepsOfPrefix(st, inflows, k, owed, excluded);
    StepSuggests(Steps(st, inflows[..k], owed, excluded), inflows[k], owed, excluded);
    LinkedIsExcluded(links, inflows[k].id);
  }

  lemma StepsOfPrefix(st: State, inflows: seq<Inflow>, k: nat, owed: map<string, int>, excluded: set<nat>)
    requires k < |inflows|
    ensures Steps(st, inflows[..k + 1], owed, excluded)
         == Step(Steps(st, inflows[..k], owed, excluded), inflows[k], owed, excluded)
  {
    hide Step;
    assert inflows[..k + 1][..k] == inflows[..k];
  }

  lemma LinkedIsExcluded(links: seq<Link>, id: nat)
    ensures id in LinkedInflows(links) <==> !forall l | l in links :: l.inflow != Some(id)
  {
    if l: Link :| l in links && l.inflow == Some(id) {
      assert l.inflow.Some?;
    }
  }

  lemma StepSuggests(before: State, inf: Inflow, owed: map<string, int>, excluded: set<nat>)
    ensures var after := Step(before, inf, owed, excluded);
            var o := AllocationFor(inf.cents, if inf.person in before.charges then before.charges[inf.person] else []);
            if inf.id !in excluded && inf.person in owed && owed[inf.person] > 50
               && !(o.kind == Over && FarAbove(inf.cents, owed[inf.person]))
            then Suggests(before, after, inf, owed[inf.person], o)
            else after == before
  {
    hide AllocationFor, Reserve;
  }

  /** A suggestion that surfaced, its inflow split into what is matched and the remainder. */
  ghost predicate Faithful(s: Suggestion, owed: map<string, int>, excluded: set<nat>) {
    && s.inflow.id !in excluded
    && s.inflow.person in owed && s.owed == owed[s.inflow.person] > 50
    && !(s.kind == Over && FarAbove(s.inflow.cents, s.owed))
    && s.matched + s.remainder == s.inflow.cents
    && s.matched == AllocatedCents(s.allocations) && 0 <= s.matched && 0 <= s.remainder
  }

  lemma StepIsFaithful(st: State, inf: Inflow, owed: map<string, int>, excluded: set<nat>)
    requires inf.cents > 0
    ensures forall s | s in Step(st, inf, owed, excluded).suggestions ::
              s in st.suggestions || (s.inflow == inf && Faithful(s, owed, excluded))
  {
    hide AllocationFor, AllocatedCents, Reserve, Outstanding;
    var es := ChargesOf(st.charges, inf.person);
    AllocationIsSound(inf.cents, es);
    PositiveAllocations(AllocationFor(inf.cents, es).allocations);
  }

  /** Only inflows that surface are suggested, and each splits into matched and remainder. */
  lemma {:induction false} SuggestionsAreFaithful(st: State, inflows: seq<Inflow>,
                                                  owed: map<string, int>, excluded: set<nat>)
    requires forall k | 0 <= k < |inflows| :: inflows[k].cents > 0
    requires st.suggestions == []
    ensures forall s | s in Steps(st, inflows, owed, excluded).suggestions ::
              s.inflow in inflows && Faithful(s, owed, excluded)
  {
    if inflows == [] {
    } else {
      var front, last := inflows[..|inflows| - 1], inflows[|inflows| - 1];
      SuggestionsAreFaithful(st, front, owed, excluded);
      StepIsFaithful(Steps(st, front, owed, excluded), last, owed, excluded);
      hide Step, Faithful;
    }
  }

  lemma {:induction false} PositiveAllocations(allocations: seq<Allocated>)
    requires forall j | 0 <= j < |allocations| :: 0 < allocations[j].cents
    ensures 0 <= AllocatedCents(allocations)
  {
    if allocations != [] {
      PositiveAllocations(allocations[..|allocations| - 1]);
    }
  }

  // ----- why charges need distinct ids

  function Fifty(remaining: int): Expense {
    Expense(7, 0, -5000, remaining)
  }

  function Payments(n: nat): (inflows: seq<Inflow>)
    ensures |inflows| == n && forall k: nat | k < n :: inflows[k] == Inflow(k, "p", 5000)
  {
    seq(n, k requires 0 <= k < n => Inflow(k, "p", 5000))
  }

  lemma FiftyIsMatched(rest: int)
    requires rest == 5000 || rest == 0
    ensures AllocationFor(5000, [Fifty(5000), Fifty(rest)]) == Outcome([Allocated(7, 5000)], 5000, Exact)
  {
    var es := [Fifty(5000), Fifty(rest)];
    var pool := Pool(es);
    PoolIsOpenOldestFirst(es);
    hide Pool, FindCombo, PayInOrder;
    assert multiset(es)[es[0]] > 0 && es[0] in multiset(pool);
    assert forall i | 0 <= i < |pool| :: pool[i] == Fifty(5000);
    assert es[0] in pool && Remaining(pool)[0] == 5000;
    assert FindSingle(Remaining(pool), 5000, Tolerance(5000)) == Some(0);
    OnePaymentSum([5000]);
    assert Refer(pool, [0], [5000]) == [Allocated(7, 5000)];
    hide FindSingle, Refer, Sum;
  }

  lemma LaterIsReserved(rest: int)
    requires rest == 5000 || rest == 0
    ensures Reserve([Fifty(5000), Fifty(rest)], [Allocated(7, 5000)]) == [Fifty(5000), Fifty(0)]
  {
    var a := Allocated(7, 5000);
    assert [a][..0] == [];
  }

  function FiftyRun(n: nat): State {
    Steps(State(map["p" := [Fifty(5000), Fifty(5000)]], []), Payments(n), map["p" := 10000], {})
  }

  lemma NextFifty(n: nat)
    requires n > 0
    ensures FiftyRun(n) == Step(FiftyRun(n - 1), Inflow(n - 1, "p", 5000), map["p" := 10000], {})
  {
    hide Step;
    assert Payments(n)[..n - 1] == Payments(n - 1);
  }

  lemma NoFifty()
    ensures FiftyRun(0) == State(map["p" := [Fifty(5000), Fifty(5000)]], [])
  {}

  /** Charges must carry distinct ids for this. With one id on two charges of fifty dollars, the
      reservations all land on the later one, so any number of payments of fifty dollars is
      matched in full: three already book more than both charges are worth. */
  lemma {:induction false} SharedIdEscapesReservation(n: nat)
    ensures SuggestedFor(FiftyRun(n).suggestions, "p", 7) == 5000 * n
    ensures FiftyRun(n).charges == map["p" := [Fifty(5000), Fifty(if n == 0 then 5000 else 0)]]
  {
    if n == 0 {
      NoFifty();
    } else {
      hide *;
      SharedIdEscapesReservation(n - 1);
      NextFifty(n);
      FiftyStep(FiftyRun(n - 1), n - 1, if n == 1 then 5000 else 0);
    }
  }

  lemma FiftyStep(st: State, id: nat, rest: int)
    requires rest == 5000 || rest == 0
    requires st.charges == map["p" := [Fifty(5000), Fifty(rest)]]
    ensures var after := Step(st, Inflow(id, "p", 5000), map["p" := 10000], {});
            && SuggestedFor(after.suggestions, "p", 7) == SuggestedFor(st.suggestions, "p", 7) + 5000
            && after.charges == map["p" := [Fifty(5000), Fifty(0)]]
  {
    FiftyIsMatched(rest);
    LaterIsReserved(rest);
    hide AllocationFor, Reserve;
    var inf, a := Inflow(id, "p", 5000), Allocated(7, 5000);
    var s := Suggestion(inf, 10000, [a], 5000, 0, Exact);
    assert Step(st, inf, map["p" := 10000], {}).suggestions == st.suggestions + [s];
    assert (st.suggestions + [s])[..|st.suggestions|] == st.suggestions;
    assert [a][..0] == [] && GivenTo([a], 7) == 5000;
  }
}
