/** Merging one statement import into the who-owes-me sidecar. Amounts are whole cents. A map
    keyed by slug is the sequence of its slots in insertion order, no slug twice. */
module VenmoMerge {
  import opened Common
  import opened StableSort

  datatype Entry = Entry(event: string, cents: int)

  datatype Slot = Slot(slug: string, entries: seq<Entry>)

  datatype Person = Person(slug: string, name: string, owed: int)

  /** Where an event's entries came from. */
  datatype Receipt = Receipt(importedAt: string, sourceFile: string, settledNet: map<string, int>)

  datatype Import = Import(event: string, bySlug: seq<Slot>, people: seq<Person>, receipt: Receipt)

  datatype Sidecar = Sidecar(bySlug: seq<Slot>, people: seq<Person>, imports: map<string, Receipt>)

  const EMPTY := Sidecar([], [], map[])

  // ----- slots

  function Without(entries: seq<Entry>, event: string): seq<Entry> {
    if entries == [] then []
    else
      var last := entries[|entries| - 1];
      Without(entries[..|entries| - 1], event) + if last.event != event then [last] else []
  }

  /** The slots without one event's entries, and without the slots this empties. */
  function Keep(slots: seq<Slot>, event: string): seq<Slot> {
    if slots == [] then []
    else
      var last := slots[|slots| - 1];
      var kept := Without(last.entries, event);
      Keep(slots[..|slots| - 1], event) + if kept != [] then [Slot(last.slug, kept)] else []
  }

  function IndexOf(slots: seq<Slot>, slug: string): (r: Option<nat>)
    ensures r.Some? ==> r.value < |slots| && slots[r.value].slug == slug
    ensures r.None? ==> forall i | 0 <= i < |slots| :: slots[i].slug != slug
  {
    if slots == [] then None
    else if slots[|slots| - 1].slug == slug then Some(|slots| - 1)
    else IndexOf(slots[..|slots| - 1], slug)
  }

  function Append(slots: seq<Slot>, slug: string, entries: seq<Entry>): seq<Slot> {
    var i := IndexOf(slots, slug);
    if i.Some? then slots[i.value := Slot(slug, slots[i.value].entries + entries)]
    else slots + [Slot(slug, entries)]
  }

  function AppendAll(slots: seq<Slot>, more: seq<Slot>): seq<Slot> {
    if more == [] then slots
    else
      var last := more[|more| - 1];
      Append(AppendAll(slots, more[..|more| - 1]), last.slug, last.entries)
  }

  /** The entries recorded for one person; none when the slug is absent. */
  function Lookup(slots: seq<Slot>, slug: string): seq<Entry> {
    var i := IndexOf(slots, slug);
    if i.Some? then slots[i.value].entries else []
  }

  // ----- names and people

  function Lower(s: string): string {
    if s == "" then ""
    else [if 'A' <= s[0] <= 'Z' then (s[0] as int + 32) as char else s[0]] + Lower(s[1..])
  }

  function CollectNames(people: seq<Person>): map<string, string> {
    if people == [] then map[]
    else CollectNames(people[..|people| - 1])[people[|people| - 1].slug := people[|people| - 1].name]
  }

  predicate Collides(names: map<string, string>, p: Person) {
    p.slug in names && names[p.slug] != "" && Lower(names[p.slug]) != Lower(p.name)
  }

  /** Add an import's names; an error names the slug on which two different names collide. */
  function AddNames(names: map<string, string>, people: seq<Person>): Result<map<string, string>, string> {
    if people == [] then Ok(names)
    else
      var before := AddNames(names, people[..|people| - 1]);
      var last := people[|people| - 1];
      if before.Err? then before
      else if Collides(before.value, last) then Err(last.slug)
      else Ok(before.value[last.slug := last.name])
  }

  function Cents(entries: seq<Entry>): int {
    if entries == [] then 0 else Cents(entries[..|entries| - 1]) + entries[|entries| - 1].cents
  }

  function NameFor(names: map<string, string>, slug: string): string {
    if slug in names && names[slug] != "" then names[slug] else slug
  }

  /** One person for each slot with anything owing, in slot order. */
  function Owing(slots: seq<Slot>, names: map<string, string>): seq<Person> {
    if slots == [] then []
    else
      var last := slots[|slots| - 1];
      var owed := Cents(last.entries);
      Owing(slots[..|slots| - 1], names)
      + if owed > 0 then [Person(last.slug, NameFor(names, last.slug), owed)] else []
  }

  predicate OwesNoLess(p: Person, q: Person) {
    p.owed >= q.owed
  }

  /** A stable sort, largest debt first. */
  function LargestFirst(people: seq<Person>): seq<Person> {
    Sort(OwesNoLess, people)
  }

  // ----- the merge

  function MergedSlots(slots: seq<Slot>, next: Import): seq<Slot> {
    AppendAll(Keep(slots, next.event), next.bySlug)
  }

  function Merge(existing: Sidecar, next: Import): Result<Sidecar, string> {
    var names := AddNames(CollectNames(existing.people), next.people);
    if names.Err? then Err(names.error)
    else
      var slots := MergedSlots(existing.bySlug, next);
      Ok(Sidecar(slots, LargestFirst(Owing(slots, names.value)), existing.imports[next.event := next.receipt]))
  }

  /** Drop the event's old entries, then add the import's. */
  method MergeSlots(existing: seq<Slot>, next: Import) returns (slots: seq<Slot>)
    ensures slots == MergedSlots(existing, next)
  {
    slots := [];
    for i := 0 to |existing|
      invariant slots == Keep(existing[..i], next.event)
    {
      assert existing[..i + 1][..i] == existing[..i];
      var kept := Without(existing[i].entries, next.event);
      if kept != [] {
        slots := slots + [Slot(existing[i].slug, kept)];
      }
    }
    assert existing[..|existing|] == existing;
    for i := 0 to |next.bySlug|
      invariant slots == AppendAll(Keep(existing, next.event), next.bySlug[..i])
    {
      assert next.bySlug[..i + 1][..i] == next.bySlug[..i];
      slots := Append(slots, next.bySlug[i].slug, next.bySlug[i].entries);
    }
    assert next.bySlug[..|next.bySlug|] == next.bySlug;
  }

  /** Gather the known names, then add the import's, stopping at the first collision. */
  method MergeNames(existing: seq<Person>, next: seq<Person>) returns (r: Result<map<string, string>, string>)
    ensures r == AddNames(CollectNames(existing), next)
  {
    var names: map<string, string> := map[];
    for i := 0 to |existing|
      invariant names == CollectNames(existing[..i])
    {
      assert existing[..i + 1][..i] == existing[..i];
      names := names[existing[i].slug := existing[i].name];
    }
    assert existing[..|existing|] == existing;
    for i := 0 to |next|
      invariant Ok(names) == AddNames(CollectNames(existing), next[..i])
    {
      assert next[..i + 1][..i] == next[..i];
      if Collides(names, next[i]) {
        CollisionStops(CollectNames(existing), next, i + 1);
        return Err(next[i].slug);
      }
      names := names[next[i].slug := next[i].name];
    }
    assert next[..|next|] == next;
    return Ok(names);
  }

  method MergeEvent(existing: Option<Sidecar>, next: Import) returns (r: Result<Sidecar, string>)
    ensures r == Merge(if existing.Some? then existing.value else EMPTY, next)
  {
    var base := if existing.Some? then existing.value else EMPTY;
    var slots := MergeSlots(base.bySlug, next);
    var names := MergeNames(base.people, next.people);
    if names.Err? {
      return Err(names.error);
    }
    return Ok(Sidecar(slots, LargestFirst(Owing(slots, names.value)), base.imports[next.event := next.receipt]));
  }

  /** A collision among the first names read is the error of the whole import. */
  lemma {:induction false} CollisionStops(names: map<string, string>, people: seq<Person>, n: nat)
    requires n <= |people| && AddNames(names, people[..n]).Err?
    ensures AddNames(names, people) == AddNames(names, people[..n])
  {
    if n == |people| {
      assert people[..n] == people;
    } else {
      assert people[..|people| - 1][..n] == people[..n];
      CollisionStops(names, people[..|people| - 1], n);
    }
  }

  // ----- what an import looks like

  ghost predicate DistinctSlots(slots: seq<Slot>) {
    forall i, j | 0 <= i < j < |slots| :: slots[i].slug != slots[j].slug
  }

  ghost predicate AllOf(entries: seq<Entry>, event: string) {
    forall k | 0 <= k < |entries| :: entries[k].event == event
  }

  /** An import carries entries of its own event only, each slug once, and names nobody twice
      or with an empty name. */
  ghost predicate WellShaped(next: Import) {
    && DistinctSlots(next.bySlug)
    && (forall i | 0 <= i < |next.bySlug| :: AllOf(next.bySlug[i].entries, next.event))
    && DistinctPeople(next.people)
    && (forall i | 0 <= i < |next.people| :: next.people[i].name != "")
  }

  // ----- building an import from pending charges

  /** A pending charge: who still owes, and how much. */
  datatype Charge = Charge(from: string, cents: int)

  /** What the charges with one slug come to. */
  function ChargedTo(charges: seq<Charge>, slugOf: string -> string, slug: string): int {
    if charges == [] then 0
    else
      var last := charges[|charges| - 1];
      ChargedTo(charges[..|charges| - 1], slugOf, slug) + if slugOf(last.from) == slug then last.cents else 0
  }

  /** The same letter by letter, but for the case of A to Z. */
  ghost predicate SameLetters(a: string, b: string) {
    && |a| == |b|
    && forall i | 0 <= i < |a| ::
         || a[i] == b[i]
         || ('A' <= a[i] <= 'Z' && b[i] as int == a[i] as int + 32)
         || ('A' <= b[i] <= 'Z' && a[i] as int == b[i] as int + 32)
  }

  lemma {:induction false} LowerMeans(a: string, b: string)
    ensures Lower(a) == Lower(b) <==> SameLetters(a, b)
  {
    if a != "" && b != "" {
      var restA, restB := a[1..], b[1..];
      LowerMeans(restA, restB);
      assert a == [a[0]] + restA && b == [b[0]] + restB;
      assert Lower(a)[1..] == Lower(restA) && Lower(b)[1..] == Lower(restB);
      assert Lower(a) == [Lower(a)[0]] + Lower(restA) && Lower(b) == [Lower(b)[0]] + Lower(restB);
      assert forall i | 0 < i < |a| :: a[i] == restA[i - 1];
      assert forall i | 0 < i < |b| :: b[i] == restB[i - 1];
      assert forall i | 0 <= i < |restA| :: restA[i] == a[i + 1];
      assert forall i | 0 <= i < |restB| :: restB[i] == b[i + 1];
    }
  }

  /** Two charges under one slug come from different names. */
  ghost predicate Ambiguous(charges: seq<Charge>, slugOf: string -> string) {
    exists i, j ::
      && 0 <= i < j < |charges|
      && slugOf(charges[i].from) == slugOf(charges[j].from) != ""
      && !SameLetters(charges[i].from, charges[j].from)
  }

  ghost predicate DistinctPeople(people: seq<Person>) {
    forall i, j | 0 <= i < j < |people| :: people[i].slug != people[j].slug
  }

  /** The position of a slug in a running list of people. */
  function FindPerson(people: seq<Person>, slug: string): (r: Option<nat>)
    ensures r.Some? ==> r.value < |people| && people[r.value].slug == slug
    ensures r.None? ==> forall i | 0 <= i < |people| :: people[i].slug != slug
  {
    if people == [] then None
    else if people[|people| - 1].slug == slug then Some(|people| - 1)
    else FindPerson(people[..|people| - 1], slug)
  }

  /** The name of a total is that of the first charge under its slug. */
  ghost predicate Sourced(p: Person, charges: seq<Charge>, slugOf: string -> string) {
    exists i ::
      && 0 <= i < |charges| && charges[i].from == p.name && slugOf(charges[i].from) == p.slug
      && forall j | 0 <= j < i :: slugOf(charges[j].from) != p.slug
  }

  /** A charge is counted in the total of its slug, under the same name but for case. */
  ghost predicate CountedIn(people: seq<Person>, c: Charge, slugOf: string -> string) {
    exists k :: 0 <= k < |people| && people[k].slug == slugOf(c.from) && Lower(people[k].name) == Lower(c.from)
  }

  ghost predicate IsTotal(p: Person, charges: seq<Charge>, slugOf: string -> string) {
    p.owed == ChargedTo(charges, slugOf, p.slug) && Sourced(p, charges, slugOf)
  }

  /** The running totals after some charges: each slug once, under the first name it came with. */
  ghost predicate Totalled(people: seq<Person>, charges: seq<Charge>, slugOf: string -> string) {
    && DistinctPeople(people)
    && (forall k | 0 <= k < |people| :: people[k].slug != "" && people[k].name != "" && people[k].owed > 0)
    && (forall k | 0 <= k < |people| :: IsTotal(people[k], charges, slugOf))
    && (forall i | 0 <= i < |charges| && slugOf(charges[i].from) != "" :: CountedIn(people, charges[i], slugOf))
  }

  ghost predicate Listed(people: seq<Person>, slug: string) {
    exists i :: 0 <= i < |people| && people[i].slug == slug
  }

  lemma ListedOrLast(people: seq<Person>, slug: string)
    requires people != []
    ensures Listed(people, slug) <==> Listed(people[..|people| - 1], slug) || people[|people| - 1].slug == slug
  {
    var front := people[..|people| - 1];
    assert forall i | 0 <= i < |front| :: front[i] == people[i];
  }

  lemma LargestFirstKeeps(people: seq<Person>)
    ensures SortedBy(OwesNoLess, LargestFirst(people)) && multiset(LargestFirst(people)) == multiset(people)
    ensures DistinctPeople(people) ==> DistinctPeople(LargestFirst(people))
  {
    SortSorts(OwesNoLess, people);
    if DistinctPeople(people) {
      DistinctByPermutation((p: Person) => p.slug, people, LargestFirst(people));
    }
  }

  function OneSlotEach(people: seq<Person>, event: string): (slots: seq<Slot>)
    ensures |slots| == |people|
    ensures forall k | 0 <= k < |people| :: slots[k] == Slot(people[k].slug, [Entry(event, people[k].owed)])
  {
    seq(|people|, k requires 0 <= k < |people| => Slot(people[k].slug, [Entry(event, people[k].owed)]))
  }

  /** Add one charge to the running totals. */
  function AddCharge(people: seq<Person>, slug: string, c: Charge): seq<Person> {
    var k := FindPerson(people, slug);
    if k.None? then people + [Person(slug, c.from, c.cents)]
    else people[k.value := people[k.value].(owed := people[k.value].owed + c.cents)]
  }

  lemma ChargedToSnoc(charges: seq<Charge>, slugOf: string -> string, c: Charge, slug: string)
    ensures ChargedTo(charges + [c], slugOf, slug)
         == ChargedTo(charges, slugOf, slug) + if slugOf(c.from) == slug then c.cents else 0
  {
    assert (charges + [c])[..|charges|] == charges;
  }

  /** A total takes in one more charge. */
  lemma TotalGrows(p: Person, q: Person, charges: seq<Charge>, slugOf: string -> string, c: Charge)
    requires IsTotal(p, charges, slugOf)
    requires q == p.(owed := p.owed + if slugOf(c.from) == p.slug then c.cents else 0)
    ensures IsTotal(q, charges + [c], slugOf)
  {
    ChargedToSnoc(charges, slugOf, c, p.slug);
    var i :| 0 <= i < |charges| && charges[i].from == p.name && slugOf(charges[i].from) == p.slug;
    assert (charges + [c])[i] == charges[i];
    hide ChargedTo;
  }

  lemma TotalStarts(q: Person, charges: seq<Charge>, slugOf: string -> string, c: Charge)
    requires q == Person(slugOf(c.from), c.from, c.cents) && ChargedTo(charges, slugOf, q.slug) == 0
    requires forall i | 0 <= i < |charges| :: slugOf(charges[i].from) != q.slug
    ensures IsTotal(q, charges + [c], slugOf)
  {
    ChargedToSnoc(charges, slugOf, c, q.slug);
    assert (charges + [c])[|charges|] == c && forall i | 0 <= i < |charges| :: (charges + [c])[i] == charges[i];
    hide ChargedTo;
  }

  lemma CountedByAll(before: seq<Person>, after: seq<Person>, d: Charge, slugOf: string -> string)
    requires |before| <= |after|
    requires forall k | 0 <= k < |before| :: after[k].slug == before[k].slug && after[k].name == before[k].name
    ensures CountedIn(before, d, slugOf) ==> CountedIn(after, d, slugOf)
  {
    hide Lower;
  }

  /** What adding a charge does to the list of totals, position by position. */
  lemma AddChargeChanges(people: seq<Person>, slug: string, c: Charge) returns (at: nat)
    requires DistinctPeople(people)
    ensures var after := AddCharge(people, slug, c);
            && |people| <= |after| && at < |after| && after[at].slug == slug
            && (forall k | 0 <= k < |people| ::
                  after[k] == people[k].(owed := people[k].owed + if people[k].slug == slug then c.cents else 0))
            && (at == |people| ==> FindPerson(people, slug).None? && after == people + [Person(slug, c.from, c.cents)])
            && (at < |people| ==> FindPerson(people, slug) == Some(at) && |after| == |people|)
  {
    var k := FindPerson(people, slug);
    at := if k.Some? then k.value else |people|;
    hide FindPerson;
  }

  lemma AddChargeTotals(people: seq<Person>, charges: seq<Charge>, slugOf: string -> string, c: Charge)
    requires Totalled(people, charges, slugOf) && c.cents > 0 && slugOf(c.from) != "" && slugOf("") == ""
    requires var k := FindPerson(people, slugOf(c.from));
             k.Some? ==> Lower(people[k.value].name) == Lower(c.from)
    ensures Totalled(AddCharge(people, slugOf(c.from), c), charges + [c], slugOf)
  {
    hide Lower, FindPerson, IsTotal, CountedIn;
    var slug := slugOf(c.from);
    var at := AddChargeChanges(people, slug, c);
    hide AddCharge;
    var after := AddCharge(people, slug, c);
    forall j | 0 <= j < |after| ensures IsTotal(after[j], charges + [c], slugOf) {
      if j < |people| {
        TotalGrows(people[j], after[j], charges, slugOf, c);
      } else {
        UncountedSlug(people, charges, slugOf, slug);
        TotalStarts(after[j], charges, slugOf, c);
      }
    }
    CountsGrow(people, after, charges, slugOf, c, at);
  }

  lemma CountsGrow(people: seq<Person>, after: seq<Person>, charges: seq<Charge>, slugOf: string -> string,
                   c: Charge, at: nat)
    requires |people| <= |after| && at < |after|
    requires forall k | 0 <= k < |people| :: after[k].slug == people[k].slug && after[k].name == people[k].name
    requires after[at].slug == slugOf(c.from) && Lower(after[at].name) == Lower(c.from)
    requires forall i | 0 <= i < |charges| && slugOf(charges[i].from) != "" :: CountedIn(people, charges[i], slugOf)
    ensures var all := charges + [c];
            forall i | 0 <= i < |all| && slugOf(all[i].from) != "" :: CountedIn(after, all[i], slugOf)
  {
    hide Lower;
    assert CountedIn(after, c, slugOf);
    hide CountedIn;
    forall i | 0 <= i < |charges| && slugOf(charges[i].from) != "" ensures CountedIn(after, charges[i], slugOf) {
      CountedByAll(people, after, charges[i], slugOf);
    }
  }

  lemma UncountedSlug(people: seq<Person>, charges: seq<Charge>, slugOf: string -> string, slug: string)
    requires slug != "" && FindPerson(people, slug).None?
    requires forall i | 0 <= i < |charges| && slugOf(charges[i].from) != "" :: CountedIn(people, charges[i], slugOf)
    ensures ChargedTo(charges, slugOf, slug) == 0
    ensures forall i | 0 <= i < |charges| :: slugOf(charges[i].from) != slug
  {
    hide Lower, ChargedTo;
    forall i | 0 <= i < |charges| && slugOf(charges[i].from) != "" ensures Listed(people, slugOf(charges[i].from)) {
      assert CountedIn(people, charges[i], slugOf);
    }
    NothingCharged(people, charges, slugOf, slug);
  }

  lemma SkipKeepsTotals(people: seq<Person>, charges: seq<Charge>, slugOf: string -> string, c: Charge)
    requires Totalled(people, charges, slugOf) && slugOf(c.from) == ""
    ensures Totalled(people, charges + [c], slugOf)
  {
    hide IsTotal, CountedIn;
    forall j | 0 <= j < |people| ensures IsTotal(people[j], charges + [c], slugOf) {
      TotalGrows(people[j], people[j], charges, slugOf, c);
    }
  }

  lemma TotalsAreUnambiguous(people: seq<Person>, charges: seq<Charge>, slugOf: string -> string)
    requires Totalled(people, charges, slugOf)
    ensures !Ambiguous(charges, slugOf)
  {
    hide Lower, IsTotal;
    forall i, j | 0 <= i < j < |charges| && slugOf(charges[i].from) == slugOf(charges[j].from) != ""
      ensures SameLetters(charges[i].from, charges[j].from)
    {
      assert CountedIn(people, charges[i], slugOf) && CountedIn(people, charges[j], slugOf);
      var k :| 0 <= k < |people| && people[k].slug == slugOf(charges[i].from)
            && Lower(people[k].name) == Lower(charges[i].from);
      var l :| 0 <= l < |people| && people[l].slug == slugOf(charges[j].from)
            && Lower(people[l].name) == Lower(charges[j].from);
      assert k == l;
      LowerMeans(charges[i].from, charges[j].from);
    }
    hide SameLetters;
  }

  /** Totals by slug, one slot and one person each, are a well-shaped import. */
  lemma ShapedFromTotals(people: seq<Person>, charges: seq<Charge>, slugOf: string -> string,
                         event: string, receipt: Receipt)
    requires Totalled(people, charges, slugOf)
    ensures WellShaped(Import(event, OneSlotEach(people, event), LargestFirst(people), receipt))
  {
    hide Lower, ChargedTo, LargestFirst, IsTotal, CountedIn, SortedBy;
    LargestFirstKeeps(people);
    TotalledStays(people, LargestFirst(people), charges, slugOf);
  }

  lemma TotalledStays(people: seq<Person>, sorted: seq<Person>, charges: seq<Charge>, slugOf: string -> string)
    requires Totalled(people, charges, slugOf)
    requires multiset(sorted) == multiset(people) && DistinctPeople(sorted)
    ensures Totalled(sorted, charges, slugOf)
  {
    hide Lower, IsTotal;
    forall i | 0 <= i < |sorted| ensures sorted[i] in people {
      assert sorted[i] in multiset(people);
    }
    forall i | 0 <= i < |charges| && slugOf(charges[i].from) != "" ensures CountedIn(sorted, charges[i], slugOf) {
      assert CountedIn(people, charges[i], slugOf);
      var k :| 0 <= k < |people| && people[k].slug == slugOf(charges[i].from)
            && Lower(people[k].name) == Lower(charges[i].from);
      assert people[k] in multiset(sorted);
    }
  }

  lemma {:induction false} NothingCharged(people: seq<Person>, charges: seq<Charge>,
                                          slugOf: string -> string, slug: string)
    requires forall i | 0 <= i < |charges| && slugOf(charges[i].from) != "" :: Listed(people, slugOf(charges[i].from))
    requires slug != "" && !Listed(people, slug)
    ensures ChargedTo(charges, slugOf, slug) == 0
  {
    if charges != [] {
      NothingCharged(people, charges[..|charges| - 1], slugOf, slug);
    }
  }

  /** The total of one slug, under the first name it came with, and the one entry recorded. */
  ghost predicate ListsTotal(p: Person, event: string, slots: seq<Slot>,
                             charges: seq<Charge>, slugOf: string -> string) {
    && p.slug != "" && Sourced(p, charges, slugOf)
    && p.owed == SumBy(charges, (c: Charge) => if slugOf(c.from) == p.slug then c.cents else 0)
    && Lookup(slots, p.slug) == [Entry(event, p.owed)]
  }

  /** What an import lists: each slug charged to, once, the largest total first, and nothing else. */
  ghost predicate ListsCharges(next: Import, charges: seq<Charge>, slugOf: string -> string) {
    && (forall k, l | 0 <= k < l < |next.people| ::
          next.people[k].slug != next.people[l].slug && next.people[k].owed >= next.people[l].owed)
    && (forall k | 0 <= k < |next.people| :: ListsTotal(next.people[k], next.event, next.bySlug, charges, slugOf))
    && (forall i | 0 <= i < |charges| && slugOf(charges[i].from) != "" ::
          Listed(next.people, slugOf(charges[i].from)))
    && (forall slug | !Listed(next.people, slug) :: Lookup(next.bySlug, slug) == [])
  }

  lemma {:induction false} ChargedAddsUp(charges: seq<Charge>, slugOf: string -> string, slug: string)
    ensures ChargedTo(charges, slugOf, slug)
         == SumBy(charges, (c: Charge) => if slugOf(c.from) == slug then c.cents else 0)
  {
    if charges != [] {
      ChargedAddsUp(charges[..|charges| - 1], slugOf, slug);
    }
  }

  lemma OneListed(people: seq<Person>, charges: seq<Charge>, slugOf: string -> string, event: string, i: nat)
    requires Totalled(people, charges, slugOf) && i < |people|
    ensures ListsTotal(people[i], event, OneSlotEach(people, event), charges, slugOf)
  {
    hide ChargedTo, Lower, Sourced, Lookup, SumBy, CountedIn;
    assert IsTotal(people[i], charges, slugOf);
    ChargedAddsUp(charges, slugOf, people[i].slug);
    SlotOf(OneSlotEach(people, event), i);
  }

  lemma TotalsAreListed(people: seq<Person>, charges: seq<Charge>, slugOf: string -> string,
                        event: string, receipt: Receipt)
    requires Totalled(people, charges, slugOf)
    ensures ListsCharges(Import(event, OneSlotEach(people, event), LargestFirst(people), receipt), charges, slugOf)
  {
    hide *;
    var sorted, slots := LargestFirst(people), OneSlotEach(people, event);
    LargestFirstKeeps(people);
    TotalledPeople(people, charges, slugOf);
    SortedLargestFirst(sorted);
    SortedAreListed(people, sorted, charges, slugOf, event);
    TotalledStays(people, sorted, charges, slugOf);
    EveryoneListed(sorted, charges, slugOf);
    forall slug | !Listed(sorted, slug) ensures Lookup(slots, slug) == [] {
      NoSlotOf(people, sorted, slots, slug);
    }
    Lists(Import(event, slots, sorted, receipt), charges, slugOf);
  }

  lemma TotalledPeople(people: seq<Person>, charges: seq<Charge>, slugOf: string -> string)
    requires Totalled(people, charges, slugOf)
    ensures DistinctPeople(people)
  {}

  lemma EveryoneListed(people: seq<Person>, charges: seq<Charge>, slugOf: string -> string)
    requires Totalled(people, charges, slugOf)
    ensures forall i | 0 <= i < |charges| && slugOf(charges[i].from) != "" :: Listed(people, slugOf(charges[i].from))
  {
    hide Lower, IsTotal;
    forall i | 0 <= i < |charges| && slugOf(charges[i].from) != "" ensures Listed(people, slugOf(charges[i].from)) {
      assert CountedIn(people, charges[i], slugOf);
    }
  }

  lemma SortedAreListed(people: seq<Person>, sorted: seq<Person>, charges: seq<Charge>,
                        slugOf: string -> string, event: string)
    requires Totalled(people, charges, slugOf) && multiset(sorted) == multiset(people)
    ensures forall k | 0 <= k < |sorted| :: ListsTotal(sorted[k], event, OneSlotEach(people, event), charges, slugOf)
  {
    hide ListsTotal, Totalled;
    forall k | 0 <= k < |sorted|
      ensures ListsTotal(sorted[k], event, OneSlotEach(people, event), charges, slugOf)
    {
      assert sorted[k] in multiset(people);
      var i :| 0 <= i < |people| && people[i] == sorted[k];
      OneListed(people, charges, slugOf, event, i);
    }
  }

  lemma Lists(next: Import, charges: seq<Charge>, slugOf: string -> string)
    requires DistinctPeople(next.people)
    requires forall k, l | 0 <= k < l < |next.people| :: next.people[k].owed >= next.people[l].owed
    requires forall k | 0 <= k < |next.people| ::
               ListsTotal(next.people[k], next.event, next.bySlug, charges, slugOf)
    requires forall i | 0 <= i < |charges| && slugOf(charges[i].from) != "" ::
               Listed(next.people, slugOf(charges[i].from))
    requires forall slug | !Listed(next.people, slug) :: Lookup(next.bySlug, slug) == []
    ensures ListsCharges(next, charges, slugOf)
  {
    hide ListsTotal, Listed, Lookup;
  }

  lemma SortedLargestFirst(people: seq<Person>)
    ensures SortedBy(OwesNoLess, people) <==> forall k, l | 0 <= k < l < |people| :: people[k].owed >= people[l].owed
  {
    if SortedBy(OwesNoLess, people) {
      forall k, l | 0 <= k < l < |people| ensures people[k].owed >= people[l].owed {
        assert OwesNoLess(people[k], people[l]);
      }
    }
  }

  lemma SlotOf(slots: seq<Slot>, i: nat)
    requires DistinctSlots(slots) && i < |slots|
    ensures Lookup(slots, slots[i].slug) == slots[i].entries
  {
    IndexIsUnique(slots, i);
  }

  lemma NoSlotOf(people: seq<Person>, sorted: seq<Person>, slots: seq<Slot>, slug: string)
    requires multiset(people) == multiset(sorted) && |slots| == |people| && !Listed(sorted, slug)
    requires forall k | 0 <= k < |people| :: slots[k].slug == people[k].slug
    ensures Lookup(slots, slug) == []
  {
    forall i | 0 <= i < |slots| ensures slots[i].slug != slug {
      assert people[i] in multiset(sorted);
    }
  }

  lemma NothingTotalled(slugOf: string -> string)
    ensures Totalled([], [], slugOf)
  {}

  lemma ClashIsAmbiguous(people: seq<Person>, charges: seq<Charge>, slugOf: string -> string, i: nat, k: nat)
    requires i < |charges| && k < |people| && IsTotal(people[k], charges[..i], slugOf)
    requires people[k].slug == slugOf(charges[i].from) != "" && Lower(people[k].name) != Lower(charges[i].from)
    ensures Ambiguous(charges, slugOf)
  {
    hide Lower;
    var j :| 0 <= j < |charges[..i]| && charges[..i][j].from == people[k].name
          && slugOf(charges[..i][j].from) == people[k].slug;
    assert charges[j].from == people[k].name;
    LowerMeans(charges[j].from, charges[i].from);
    hide SameLetters;
  }

  /** Total the pending charges by slug and shape them as the import of one event. A slug is
      computed from a name, the empty one from the empty name; charges without one are skipped. */
  method ImportCharges(event: string, charges: seq<Charge>, slugOf: string -> string, receipt: Receipt)
    returns (r: Result<Import, string>)
    requires slugOf("") == "" && forall i | 0 <= i < |charges| :: charges[i].cents > 0
    ensures r.Err? <==> Ambiguous(charges, slugOf)
    ensures r.Ok? ==> WellShaped(r.value) && r.value.event == event && r.value.receipt == receipt
    ensures r.Ok? ==> ListsCharges(r.value, charges, slugOf)
  {
    hide Lower, ChargedTo, WellShaped, Ambiguous;
    var owed: seq<Person> := [];
    NothingTotalled(slugOf);
    for i := 0 to |charges|
      invariant Totalled(owed, charges[..i], slugOf)
    {
      var c := charges[i];
      var slug := slugOf(c.from);
      assert charges[..i + 1] == charges[..i] + [c];
      if slug == "" {
        SkipKeepsTotals(owed, charges[..i], slugOf, c);
      } else {
        var k := FindPerson(owed, slug);
        if k.Some? && Lower(owed[k.value].name) != Lower(c.from) {
          ClashIsAmbiguous(owed, charges, slugOf, i, k.value);
          return Err(slug);
        }
        AddChargeTotals(owed, charges[..i], slugOf, c);
        owed := AddCharge(owed, slug, c);
      }
    }
    assert charges[..|charges|] == charges;
    TotalsAreUnambiguous(owed, charges, slugOf);
    ShapedFromTotals(owed, charges, slugOf, event, receipt);
    TotalsAreListed(owed, charges, slugOf, event, receipt);
    hide ListsCharges;
    return Ok(Import(event, OneSlotEach(owed, event), LargestFirst(owed), receipt));
  }

  // ----- one merge, person by person

  lemma {:induction false} WithoutOfConcat(a: seq<Entry>, b: seq<Entry>, event: string)
    ensures Without(a + b, event) == Without(a, event) + Without(b, event)
  {
    if b == [] {
      assert a + b == a;
    } else {
      assert (a + b)[..|a + b| - 1] == a + b[..|b| - 1];
      WithoutOfConcat(a, b[..|b| - 1], event);
    }
  }

  lemma {:induction false} WithoutOwn(entries: seq<Entry>, event: string)
    requires AllOf(entries, event)
    ensures Without(entries, event) == []
  {
    if entries != [] {
      WithoutOwn(entries[..|entries| - 1], event);
    }
  }

  lemma IndexIsUnique(slots: seq<Slot>, i: nat)
    requires DistinctSlots(slots) && i < |slots|
    ensures IndexOf(slots, slots[i].slug) == Some(i)
  {
    var r := IndexOf(slots, slots[i].slug);
    assert r.Some?;
  }

  ghost predicate HasSlot(slots: seq<Slot>, slug: string) {
    exists i :: 0 <= i < |slots| && slots[i].slug == slug
  }

  lemma {:induction false} KeepKeepsSlots(slots: seq<Slot>, event: string)
    requires DistinctSlots(slots)
    ensures DistinctSlots(Keep(slots, event))
    ensures forall i | 0 <= i < |Keep(slots, event)| :: HasSlot(slots, Keep(slots, event)[i].slug)
  {
    if slots == [] {
    } else {
      var front, last := slots[..|slots| - 1], slots[|slots| - 1];
      KeepKeepsSlots(front, event);
      var kept, keep := Keep(front, event), Keep(slots, event);
      var own := Slot(last.slug, Without(last.entries, event));
      assert keep == if own.entries != [] then kept + [own] else kept;
      hide Keep, Without;
      forall i | 0 <= i < |kept| ensures kept[i].slug != last.slug && HasSlot(slots, kept[i].slug) {
        assert HasSlot(front, kept[i].slug);
        var j :| 0 <= j < |front| && front[j].slug == kept[i].slug;
        assert slots[j].slug == kept[i].slug;
      }
      assert HasSlot(slots, last.slug);
      hide HasSlot;
    }
  }

  lemma {:induction false} KeepLooksUp(slots: seq<Slot>, event: string, slug: string)
    requires DistinctSlots(slots)
    ensures Lookup(Keep(slots, event), slug) == Without(Lookup(slots, slug), event)
  {
    if slots == [] {
    } else {
      var front, last := slots[..|slots| - 1], slots[|slots| - 1];
      KeepLooksUp(front, event, slug);
      KeepKeepsSlots(front, event);
      var kept := Keep(front, event);
      var own := Without(last.entries, event);
      if own != [] {
        assert Keep(slots, event) == kept + [Slot(last.slug, own)];
        assert (kept + [Slot(last.slug, own)])[..|kept|] == kept;
      } else {
        assert Keep(slots, event) == kept;
      }
      if slug == last.slug && own == [] {
        assert !HasSlot(front, slug);
        assert IndexOf(kept, slug).None?;
      }
      hide Keep, Without, HasSlot, DistinctSlots;
    }
  }

  lemma AppendLooksUp(slots: seq<Slot>, slug: string, entries: seq<Entry>, other: string)
    requires DistinctSlots(slots)
    ensures DistinctSlots(Append(slots, slug, entries))
    ensures Lookup(Append(slots, slug, entries), other)
         == Lookup(slots, other) + if other == slug then entries else []
  {
    var i, after := IndexOf(slots, slug), Append(slots, slug, entries);
    var j := IndexOf(after, other);
    if i.Some? {
      assert forall k | 0 <= k < |slots| :: after[k].slug == slots[k].slug;
      if j.Some? {
        IndexIsUnique(slots, j.value);
      }
    } else if j.Some? && j.value < |slots| {
      IndexIsUnique(slots, j.value);
    }
  }

  lemma {:induction false} AppendAllLooksUp(slots: seq<Slot>, more: seq<Slot>, slug: string)
    requires DistinctSlots(slots) && DistinctSlots(more)
    ensures DistinctSlots(AppendAll(slots, more))
    ensures Lookup(AppendAll(slots, more), slug) == Lookup(slots, slug) + Lookup(more, slug)
  {
    if more == [] {
    } else {
      var front, last := more[..|more| - 1], more[|more| - 1];
      AppendAllLooksUp(slots, front, slug);
      AppendLooksUp(AppendAll(slots, front), last.slug, last.entries, slug);
      LookupOfLast(more, slug);
      var all, own := AppendAll(slots, front), if slug == last.slug then last.entries else [];
      assert AppendAll(slots, more) == Append(all, last.slug, last.entries);
      assert Lookup(more, slug) == Lookup(front, slug) + own;
      ConcatIsAssociative(Lookup(slots, slug), Lookup(front, slug), own);
      hide *;
    }
  }

  /** After a merge, a person's entries are the old ones of other events, in order, followed by
      the import's. */
  lemma MergeLooksUp(slots: seq<Slot>, next: Import, slug: string)
    requires DistinctSlots(slots) && DistinctSlots(next.bySlug)
    ensures DistinctSlots(MergedSlots(slots, next))
    ensures Lookup(MergedSlots(slots, next), slug)
         == Without(Lookup(slots, slug), next.event) + Lookup(next.bySlug, slug)
  {
    KeepLooksUp(slots, next.event, slug);
    KeepKeepsSlots(slots, next.event);
    AppendAllLooksUp(Keep(slots, next.event), next.bySlug, slug);
  }

  // ----- any run of imports

  function Run(existing: Sidecar, imports: seq<Import>): Result<Sidecar, string>
    decreases |imports|
  {
    if imports == [] then Ok(existing)
    else
      var merged := Merge(existing, imports[0]);
      if merged.Err? then merged else Run(merged.value, imports[1..])
  }

  function Events(imports: seq<Import>): set<string> {
    set next | next in imports :: next.event
  }

  /** The entries of events that no import touches. */
  function Untouched(entries: seq<Entry>, events: set<string>): seq<Entry> {
    if entries == [] then []
    else
      var last := entries[|entries| - 1];
      Untouched(entries[..|entries| - 1], events) + if last.event !in events then [last] else []
  }

  /** What the imports hold for a person, taking of each event its last import only. */
  function LastImports(imports: seq<Import>, slug: string): seq<Entry> {
    if imports == [] then []
    else (if imports[0].event in Events(imports[1..]) then [] else Lookup(imports[0].bySlug, slug))
         + LastImports(imports[1..], slug)
  }

  lemma {:induction false} UntouchedOfConcat(a: seq<Entry>, b: seq<Entry>, events: set<string>)
    ensures Untouched(a + b, events) == Untouched(a, events) + Untouched(b, events)
  {
    if b == [] {
      assert a + b == a;
    } else {
      assert (a + b)[..|a + b| - 1] == a + b[..|b| - 1];
      UntouchedOfConcat(a, b[..|b| - 1], events);
    }
  }

  lemma {:induction false} UntouchedWithout(entries: seq<Entry>, event: string, events: set<string>)
    ensures Untouched(Without(entries, event), events) == Untouched(entries, events + {event})
  {
    if entries != [] {
      var front, last := entries[..|entries| - 1], entries[|entries| - 1];
      UntouchedWithout(front, event, events);
      var w := Without(front, event);
      assert Without(entries, event) == if last.event != event then w + [last] else w;
      assert Untouched(w + [last], events) == Untouched(w, events) + if last.event !in events then [last] else [] by {
        assert (w + [last])[..|w|] == w;
      }
      assert Untouched(entries, events + {event})
          == Untouched(front, events + {event}) + if last.event !in events + {event} then [last] else [];
      hide *;
    }
  }

  lemma {:induction false} UntouchedOwn(entries: seq<Entry>, event: string, events: set<string>)
    requires AllOf(entries, event)
    ensures Untouched(entries, events) == if event in events then [] else entries
  {
    if entries != [] {
      UntouchedOwn(entries[..|entries| - 1], event, events);
      assert entries[..|entries| - 1] + [entries[|entries| - 1]] == entries;
    }
  }

  lemma {:induction false} UntouchedByNone(entries: seq<Entry>)
    ensures Untouched(entries, {}) == entries
  {
    if entries != [] {
      UntouchedByNone(entries[..|entries| - 1]);
      assert entries[..|entries| - 1] + [entries[|entries| - 1]] == entries;
    }
  }

  /** After any run of successful imports, a person's entries are those already there for events
      not imported, in order, and then each event's as its most recent import gave them. */
  lemma {:induction false} RunKeepsLastImports(existing: Sidecar, imports: seq<Import>, slug: string)
    requires DistinctSlots(existing.bySlug)
    requires forall i | 0 <= i < |imports| :: WellShaped(imports[i])
    requires Run(existing, imports).Ok?
    ensures var slots := Run(existing, imports).value.bySlug;
            && DistinctSlots(slots)
            && Lookup(slots, slug)
               == Untouched(Lookup(existing.bySlug, slug), Events(imports)) + LastImports(imports, slug)
    decreases |imports|
  {
    if imports == [] {
      NoImports(existing, imports, slug);
    } else {
      var next, rest := imports[0], imports[1..];
      RunOfCons(existing, imports);
      assert imports == [next] + rest && WellShaped(next);
      hide *;
      var merged := Merge(existing, next).value;
      MergeLooksUp(existing.bySlug, next, slug);
      MergedSlotsOf(existing, next);
      assert forall i | 0 <= i < |rest| :: rest[i] == imports[i + 1];
      RunKeepsLastImports(merged, rest, slug);
      RunStep(existing, next, rest, slug);
    }
  }

  lemma NoImports(existing: Sidecar, imports: seq<Import>, slug: string)
    requires imports == []
    ensures Run(existing, imports) == Ok(existing)
    ensures Untouched(Lookup(existing.bySlug, slug), Events(imports)) + LastImports(imports, slug)
         == Lookup(existing.bySlug, slug)
  {
    UntouchedByNone(Lookup(existing.bySlug, slug));
    assert Events(imports) == {} && LastImports(imports, slug) == [];
    hide *;
  }

  lemma RunOfCons(existing: Sidecar, imports: seq<Import>)
    requires imports != [] && Run(existing, imports).Ok?
    ensures Merge(existing, imports[0]).Ok?
    ensures Run(existing, imports) == Run(Merge(existing, imports[0]).value, imports[1..])
  {
    hide Merge;
  }

  lemma MergedSlotsOf(existing: Sidecar, next: Import)
    requires Merge(existing, next).Ok?
    ensures Merge(existing, next).value.bySlug == MergedSlots(existing.bySlug, next)
  {}

  /** What one more import at the front adds to what the later ones leave. */
  lemma RunStep(existing: Sidecar, next: Import, rest: seq<Import>, slug: string)
    requires WellShaped(next) && DistinctSlots(existing.bySlug) && Merge(existing, next).Ok?
    ensures Untouched(Lookup(Merge(existing, next).value.bySlug, slug), Events(rest)) + LastImports(rest, slug)
         == Untouched(Lookup(existing.bySlug, slug), Events([next] + rest)) + LastImports([next] + rest, slug)
  {
    var imports, before, more := [next] + rest, Lookup(existing.bySlug, slug), LastImports(rest, slug);
    MergedSlotsOf(existing, next);
    var own := if next.event in Events(rest) then [] else Lookup(next.bySlug, slug);
    assert LastImports(imports, slug) == own + more by {
      assert imports[0] == next && imports[1..] == rest;
    }
    MergeLooksUp(existing.bySlug, next, slug);
    EventsOfCons(next, rest, imports);
    LaterImports(before, next, slug, Events(rest), more);
    hide *;
  }

  lemma EventsOfCons(next: Import, rest: seq<Import>, imports: seq<Import>)
    requires imports == [next] + rest
    ensures Events(imports) == Events(rest) + {next.event}
  {}

  /** What a merge leaves for a person, as far as later imports do not replace it. */
  lemma LaterImports(before: seq<Entry>, next: Import, slug: string, later: set<string>, more: seq<Entry>)
    requires WellShaped(next)
    ensures var own := Lookup(next.bySlug, slug);
            Untouched(Without(before, next.event) + own, later) + more
            == Untouched(before, later + {next.event}) + ((if next.event in later then [] else own) + more)
  {
    var own := Lookup(next.bySlug, slug);
    var left := if next.event in later then [] else own;
    UntouchedOfConcat(Without(before, next.event), own, later);
    UntouchedWithout(before, next.event, later);
    UntouchedOwn(own, next.event, later);
    ConcatIsAssociative(Untouched(before, later + {next.event}), left, more);
    hide *;
  }

  /** The receipt of an event's most recent import, if it has been imported. */
  function LastReceipt(imports: seq<Import>, event: string): Option<Receipt> {
    if imports == [] then None
    else
      var later := LastReceipt(imports[1..], event);
      if later.Some? then later
      else if imports[0].event == event then Some(imports[0].receipt) else None
  }

  lemma {:induction false} RunKeepsLastReceipts(existing: Sidecar, imports: seq<Import>, event: string)
    requires Run(existing, imports).Ok?
    ensures var last, after := LastReceipt(imports, event), Run(existing, imports).value.imports;
            if last.Some? then event in after && after[event] == last.value
            else (event in after <==> event in existing.imports)
                 && (event in after ==> after[event] == existing.imports[event])
    decreases |imports|
  {
    if imports != [] {
      RunKeepsLastReceipts(Merge(existing, imports[0]).value, imports[1..], event);
    }
  }

  // ----- the people listed

  /** The person listed for a slug: its name, with the sum of its entries if anything is owing. */
  ghost predicate IsDebtor(slots: seq<Slot>, names: map<string, string>, p: Person) {
    p.owed == Cents(Lookup(slots, p.slug)) && p.owed > 0 && p.name == NameFor(names, p.slug)
  }

  lemma LookupOfLast(slots: seq<Slot>, slug: string)
    requires DistinctSlots(slots) && slots != []
    ensures var front, last := slots[..|slots| - 1], slots[|slots| - 1];
            && Lookup(slots, slug) == (if slug == last.slug then last.entries else Lookup(front, slug))
            && Lookup(front, last.slug) == []
  {
    var front, last := slots[..|slots| - 1], slots[|slots| - 1];
    assert IndexOf(front, last.slug).None?;
  }

  lemma {:induction false} OwingCounts(slots: seq<Slot>, names: map<string, string>, p: Person)
    requires DistinctSlots(slots)
    ensures multiset(Owing(slots, names))[p] == if IsDebtor(slots, names, p) then 1 else 0
  {
    if slots == [] {
    } else {
      var front, last := slots[..|slots| - 1], slots[|slots| - 1];
      OwingCounts(front, names, p);
      LookupOfLast(slots, p.slug);
      var owed, listed := Cents(last.entries), Owing(front, names);
      var more := Person(last.slug, NameFor(names, last.slug), owed);
      assert Owing(slots, names) == if owed > 0 then listed + [more] else listed;
      assert Cents([]) == 0;
      hide Owing, Cents, Lookup, NameFor;
      assert multiset(listed + [more])[p] == multiset(listed)[p] + if p == more then 1 else 0;
    }
  }

  lemma OwingIsTotals(slots: seq<Slot>, names: map<string, string>)
    requires DistinctSlots(slots)
    ensures forall p: Person ::
              multiset(LargestFirst(Owing(slots, names)))[p] == if IsDebtor(slots, names, p) then 1 else 0
  {
    LargestFirstKeeps(Owing(slots, names));
    forall p: Person {
      OwingCounts(slots, names, p);
    }
  }

  /** The people listed are exactly those with a positive total, each once with the sum of their
      entries, the largest debt first. */
  ghost predicate ListsTotals(s: Sidecar) {
    && (forall k, l | 0 <= k < l < |s.people| :: s.people[k].owed >= s.people[l].owed)
    && (forall slug :: EntrySum(Lookup(s.bySlug, slug)) > 0 <==> exists p :: p in s.people && p.slug == slug)
    && (forall p | p in s.people :: multiset(s.people)[p] == 1 && p.owed == EntrySum(Lookup(s.bySlug, p.slug)))
  }

  ghost function EntrySum(entries: seq<Entry>): int {
    SumBy(entries, (e: Entry) => e.cents)
  }

  lemma {:induction false} CentsAddUp(entries: seq<Entry>)
    ensures Cents(entries) == EntrySum(entries)
  {
    if entries != [] {
      CentsAddUp(entries[..|entries| - 1]);
    }
  }

  /** A successful merge lists the totals, each under the merged name. */
  lemma PeopleAreTotals(existing: Sidecar, next: Import)
    requires DistinctSlots(existing.bySlug) && DistinctSlots(next.bySlug) && Merge(existing, next).Ok?
    ensures var merged := Merge(existing, next).value;
            && ListsTotals(merged)
            && forall p | p in merged.people ::
                 var names := AddNames(CollectNames(existing.people), next.people).value;
                 p.name == if p.slug in names && names[p.slug] != "" then names[p.slug] else p.slug
  {
    hide *;
    var names := MergeHasNames(existing, next);
    MergeIs(existing, next, names);
    MergeLooksUp(existing.bySlug, next, "");
    OwingListsTotals(MergedSlots(existing.bySlug, next), names, existing.imports[next.event := next.receipt]);
    NameForMeans(names);
  }

  lemma NameForMeans(names: map<string, string>)
    ensures forall slug :: NameFor(names, slug) == if slug in names && names[slug] != "" then names[slug] else slug
  {}

  lemma OwingListsTotals(slots: seq<Slot>, names: map<string, string>, imports: map<string, Receipt>)
    requires DistinctSlots(slots)
    ensures var people := LargestFirst(Owing(slots, names));
            ListsTotals(Sidecar(slots, people, imports)) && forall p | p in people :: p.name == NameFor(names, p.slug)
  {
    var people := LargestFirst(Owing(slots, names));
    LargestFirstKeeps(Owing(slots, names));
    SortedLargestFirst(people);
    hide Owing, LargestFirst, NameFor, Lookup, Cents, EntrySum, DistinctSlots, DistinctPeople, SortedBy;
    ListedAreDebtors(slots, names, people);
    forall slug ensures Cents(Lookup(slots, slug)) == EntrySum(Lookup(slots, slug)) {
      CentsAddUp(Lookup(slots, slug));
    }
  }

  lemma {:induction false} RunListsTotals(existing: Sidecar, imports: seq<Import>)
    requires imports != [] && DistinctSlots(existing.bySlug)
    requires forall i | 0 <= i < |imports| :: WellShaped(imports[i])
    requires Run(existing, imports).Ok?
    ensures ListsTotals(Run(existing, imports).value)
    decreases |imports|
  {
    var next, rest := imports[0], imports[1..];
    RunOfCons(existing, imports);
    assert WellShaped(next) && DistinctSlots(next.bySlug);
    PeopleAreTotals(existing, next);
    MergedSlotsOf(existing, next);
    MergeLooksUp(existing.bySlug, next, "");
    hide WellShaped, DistinctSlots, Merge, ListsTotals, MergedSlots, Lookup, Without;
    if rest != [] {
      assert forall i | 0 <= i < |rest| :: rest[i] == imports[i + 1];
      RunListsTotals(Merge(existing, next).value, rest);
    }
  }

  /** What a run of imports leaves a person owing: the entries no import touches, and of each
      event the last import's. */
  ghost function OwedAfter(existing: Sidecar, imports: seq<Import>, slug: string): int {
    EntrySum(Untouched(Lookup(existing.bySlug, slug), Events(imports)) + LastImports(imports, slug))
  }

  /** After any run of imports exactly the people left owing something are listed, each once. */
  lemma RunListsLastImports(existing: Sidecar, imports: seq<Import>)
    requires imports != [] && DistinctSlots(existing.bySlug)
    requires forall i | 0 <= i < |imports| :: WellShaped(imports[i])
    requires Run(existing, imports).Ok?
    ensures var people := Run(existing, imports).value.people;
            && (forall k, l | 0 <= k < l < |people| :: people[k].owed >= people[l].owed)
            && (forall slug :: OwedAfter(existing, imports, slug) > 0 <==> exists p :: p in people && p.slug == slug)
            && (forall p | p in people :: multiset(people)[p] == 1 && p.owed == OwedAfter(existing, imports, p.slug))
  {
    RunListsTotals(existing, imports);
    hide WellShaped, DistinctSlots, Run, Lookup, EntrySum, Untouched, LastImports, Events;
    forall slug
      ensures OwedAfter(existing, imports, slug) == EntrySum(Lookup(Run(existing, imports).value.bySlug, slug))
    {
      RunKeepsLastImports(existing, imports, slug);
    }
    hide OwedAfter;
  }

  lemma ListedAreDebtors(slots: seq<Slot>, names: map<string, string>, people: seq<Person>)
    requires DistinctSlots(slots) && people == LargestFirst(Owing(slots, names))
    ensures forall p | p in people ::
              multiset(people)[p] == 1 && p.owed == Cents(Lookup(slots, p.slug)) && p.name == NameFor(names, p.slug)
    ensures forall slug :: Cents(Lookup(slots, slug)) > 0 <==> exists p :: p in people && p.slug == slug
  {
    OwingIsTotals(slots, names);
    hide Owing, LargestFirst, Cents, Lookup, NameFor;
    forall p | p in people ensures multiset(people)[p] == 1 && IsDebtor(slots, names, p) {
      assert p in multiset(people);
    }
    forall slug | Cents(Lookup(slots, slug)) > 0 ensures exists p :: p in people && p.slug == slug {
      var p := Person(slug, NameFor(names, slug), Cents(Lookup(slots, slug)));
      assert IsDebtor(slots, names, p);
      assert p in multiset(people);
      assert p in people;
    }
  }

  // ----- importing the same statement again

  lemma {:induction false} WithoutTwice(entries: seq<Entry>, event: string)
    ensures Without(Without(entries, event), event) == Without(entries, event)
  {
    if entries != [] {
      var front, last := entries[..|entries| - 1], entries[|entries| - 1];
      WithoutTwice(front, event);
      var w := Without(front, event);
      assert Without(entries, event) == if last.event != event then w + [last] else w;
      assert (w + [last])[..|w|] == w;
    }
  }

  lemma {:induction false} KeepTwice(slots: seq<Slot>, event: string)
    ensures Keep(Keep(slots, event), event) == Keep(slots, event)
  {
    if slots != [] {
      var front, last := slots[..|slots| - 1], slots[|slots| - 1];
      KeepTwice(front, event);
      WithoutTwice(last.entries, event);
      var kept, own := Keep(front, event), Slot(last.slug, Without(last.entries, event));
      assert Keep(slots, event) == if own.entries != [] then kept + [own] else kept;
      assert (kept + [own])[..|kept|] == kept;
    }
  }

  /** Keep works slot by slot, so slots that differ only in the event's entries keep the same. */
  lemma {:induction false} KeepIgnoresOwn(a: seq<Slot>, b: seq<Slot>, event: string)
    requires |a| == |b|
    requires forall i | 0 <= i < |a| ::
               a[i].slug == b[i].slug && Without(a[i].entries, event) == Without(b[i].entries, event)
    ensures Keep(a, event) == Keep(b, event)
  {
    if a != [] {
      KeepIgnoresOwn(a[..|a| - 1], b[..|b| - 1], event);
    }
  }

  lemma KeepOfAppend(slots: seq<Slot>, slug: string, entries: seq<Entry>, event: string)
    requires AllOf(entries, event)
    ensures Keep(Append(slots, slug, entries), event) == Keep(slots, event)
  {
    WithoutOwn(entries, event);
    var i, after := IndexOf(slots, slug), Append(slots, slug, entries);
    if i.Some? {
      WithoutOfConcat(slots[i.value].entries, entries, event);
      KeepIgnoresOwn(after, slots, event);
    } else {
      assert after[..|slots|] == slots;
    }
  }

  lemma {:induction false} KeepOfAppendAll(slots: seq<Slot>, more: seq<Slot>, event: string)
    requires forall i | 0 <= i < |more| :: AllOf(more[i].entries, event)
    ensures Keep(AppendAll(slots, more), event) == Keep(slots, event)
  {
    if more != [] {
      var front, last := more[..|more| - 1], more[|more| - 1];
      KeepOfAppendAll(slots, front, event);
      KeepOfAppend(AppendAll(slots, front), last.slug, last.entries, event);
    }
  }

  lemma SlotsSettle(slots: seq<Slot>, next: Import)
    requires WellShaped(next)
    ensures MergedSlots(MergedSlots(slots, next), next) == MergedSlots(slots, next)
  {
    KeepTwice(slots, next.event);
    KeepOfAppendAll(Keep(slots, next.event), next.bySlug, next.event);
  }

  /** Names added under distinct slugs do not collide with one another: the import fails exactly
      when one of them collides with a name known before. */
  lemma {:induction false} AddNamesGives(names: map<string, string>, people: seq<Person>)
    requires DistinctPeople(people)
    ensures AddNames(names, people).Err? <==> exists i :: 0 <= i < |people| && Collides(names, people[i])
    ensures AddNames(names, people).Ok? ==>
              forall i | 0 <= i < |people| :: NameIs(AddNames(names, people).value, people[i].slug, people[i].name)
    ensures AddNames(names, people).Ok? ==>
              forall slug | !Listed(people, slug) :: SameName(AddNames(names, people).value, names, slug)
  {
    if people == [] {
    } else {
      var front, last := people[..|people| - 1], people[|people| - 1];
      AddNamesGives(names, front);
      var before := AddNames(names, front);
      ListedOrLast(people, last.slug);
      assert !Listed(front, last.slug);
      if before.Ok? {
        CollidesBySlug(before.value, names, last);
        forall slug | !Listed(people, slug) ensures !Listed(front, slug) && slug != last.slug {
          ListedOrLast(people, slug);
        }
      }
      assert AddNames(names, people)
          == if before.Err? then before
             else if Collides(before.value, last) then Err(last.slug)
             else Ok(before.value[last.slug := last.name]);
      hide AddNames, Collides, Listed, Lower, DistinctPeople;
      assert before.Ok? && !Collides(before.value, last) ==>
        forall i | 0 <= i < |front| :: NameIs(before.value[last.slug := last.name], front[i].slug, front[i].name);
      assert people == front + [last];
    }
  }

  /** The person's slug was known under a name that reads differently. */
  ghost predicate Renames(names: map<string, string>, p: Person) {
    p.slug in names && names[p.slug] != "" && !SameLetters(names[p.slug], p.name)
  }

  lemma CollidesMeans(names: map<string, string>, p: Person)
    ensures Collides(names, p) <==> Renames(names, p)
  {
    if p.slug in names {
      LowerMeans(names[p.slug], p.name);
    }
    hide Lower, SameLetters;
  }

  /** An import fails exactly when one of its people renames a slug known before, and then over
      the first who does; otherwise its names replace, and others stay. */
  lemma NamesMerge(names: map<string, string>, people: seq<Person>)
    requires DistinctPeople(people)
    ensures AddNames(names, people).Err? <==> exists i :: 0 <= i < |people| && Renames(names, people[i])
    ensures AddNames(names, people).Err? ==>
              exists i ::
                && 0 <= i < |people| && Renames(names, people[i])
                && AddNames(names, people).error == people[i].slug
                && forall j | 0 <= j < i :: !Renames(names, people[j])
    ensures AddNames(names, people).Ok? ==>
              forall i | 0 <= i < |people| :: NameIs(AddNames(names, people).value, people[i].slug, people[i].name)
    ensures AddNames(names, people).Ok? ==>
              forall slug | forall i | 0 <= i < |people| :: people[i].slug != slug ::
                SameName(AddNames(names, people).value, names, slug)
  {
    AddNamesGives(names, people);
    forall i | 0 <= i < |people| {
      CollidesMeans(names, people[i]);
    }
    hide AddNames, Collides, Renames, NameIs, SameName;
    if AddNames(names, people).Err? {
      var i := FirstCollision(names, people);
    }
  }

  lemma {:induction false} FirstCollision(names: map<string, string>, people: seq<Person>) returns (i: nat)
    requires DistinctPeople(people) && AddNames(names, people).Err?
    ensures i < |people| && Collides(names, people[i]) && AddNames(names, people).error == people[i].slug
    ensures forall j | 0 <= j < i :: !Collides(names, people[j])
  {
    NobodyAdded(names);
    var front, last := people[..|people| - 1], people[|people| - 1];
    AddOneName(names, people);
    assert DistinctPeople(front) && forall j | 0 <= j < |front| :: people[j] == front[j];
    hide *;
    if AddNames(names, front).Err? {
      i := FirstCollision(names, front);
    } else {
      i := |front|;
      AddNamesGives(names, front);
      AddNamesGives(names, people);
    }
  }

  lemma NobodyAdded(names: map<string, string>)
    ensures AddNames(names, []).Ok?
  {}

  lemma AddOneName(names: map<string, string>, people: seq<Person>)
    requires people != [] && AddNames(names, people).Err?
    ensures var front := AddNames(names, people[..|people| - 1]);
            AddNames(names, people).error == if front.Err? then front.error else people[|people| - 1].slug
  {
    hide Collides;
  }

  lemma CollidesBySlug(a: map<string, string>, b: map<string, string>, p: Person)
    requires SameName(a, b, p.slug)
    ensures Collides(a, p) <==> Collides(b, p)
  {}

  ghost predicate NameIs(names: map<string, string>, slug: string, name: string) {
    slug in names && names[slug] == name
  }

  /** Every one of the people has a name, and it is the one listed. */
  ghost predicate Names(names: map<string, string>, people: seq<Person>) {
    forall i | 0 <= i < |people| :: people[i].name != "" && NameIs(names, people[i].slug, people[i].name)
  }

  ghost predicate SameName(a: map<string, string>, b: map<string, string>, slug: string) {
    (slug in a <==> slug in b) && (slug in a ==> a[slug] == b[slug])
  }

  lemma {:induction false} CollectedName(people: seq<Person>, slug: string)
    ensures slug in CollectNames(people) <==> Listed(people, slug)
    ensures slug in CollectNames(people) ==>
              exists i :: 0 <= i < |people| && people[i] == Person(slug, CollectNames(people)[slug], people[i].owed)
  {
    if people != [] {
      var front, last := people[..|people| - 1], people[|people| - 1];
      CollectedName(front, slug);
      ListedOrLast(people, slug);
      if slug == last.slug {
        assert people[|people| - 1] == Person(slug, CollectNames(people)[slug], last.owed);
      } else if slug in CollectNames(front) {
        var i :| 0 <= i < |front| && front[i] == Person(slug, CollectNames(front)[slug], front[i].owed);
        assert people[i] == front[i];
      }
    }
  }

  /** The merged people carry the merged names, so reading them back gives the same names. */
  lemma NamesReadBack(slots: seq<Slot>, names: map<string, string>, slug: string)
    requires DistinctSlots(slots)
    ensures var read := CollectNames(LargestFirst(Owing(slots, names)));
            && (slug in read <==> Cents(Lookup(slots, slug)) > 0)
            && (slug in read ==> read[slug] == NameFor(names, slug))
  {
    var people := LargestFirst(Owing(slots, names));
    OwingIsTotals(slots, names);
    CollectedName(people, slug);
    hide LargestFirst, Owing, CollectNames, Cents, Lookup, NameFor;
    var p := Person(slug, NameFor(names, slug), Cents(Lookup(slots, slug)));
    if p.owed > 0 {
      assert IsDebtor(slots, names, p) && p in multiset(people);
      var i :| 0 <= i < |people| && people[i] == p;
      assert people[i].slug == slug;
    }
    if slug in CollectNames(people) {
      var i :| 0 <= i < |people| && people[i] == Person(slug, CollectNames(people)[slug], people[i].owed);
      assert people[i] in multiset(people);
      assert IsDebtor(slots, names, people[i]);
    }
  }

  lemma {:induction false} OwingByNames(slots: seq<Slot>, a: map<string, string>, b: map<string, string>)
    requires forall i | 0 <= i < |slots| :: Cents(slots[i].entries) > 0 ==>
               NameFor(a, slots[i].slug) == NameFor(b, slots[i].slug)
    ensures Owing(slots, a) == Owing(slots, b)
  {
    if slots != [] {
      OwingByNames(slots[..|slots| - 1], a, b);
    }
  }

  /** Reading the merged people back, the import's names collide with none of them. */
  lemma NamesDoNotCollide(slots: seq<Slot>, names: map<string, string>, people: seq<Person>)
    requires DistinctSlots(slots)
    requires Names(names, people)
    ensures var read := CollectNames(LargestFirst(Owing(slots, names)));
            forall i | 0 <= i < |people| :: !Collides(read, people[i])
  {
    hide CollectNames, LargestFirst, Owing, Lower, Cents, Lookup;
    forall i | 0 <= i < |people|
      ensures !Collides(CollectNames(LargestFirst(Owing(slots, names))), people[i])
    {
      NamesReadBack(slots, names, people[i].slug);
      assert NameIs(names, people[i].slug, people[i].name);
    }
  }

  /** The names after importing the same people again list the same debtors. */
  lemma OwingSettles(slots: seq<Slot>, names: map<string, string>, people: seq<Person>)
    requires DistinctSlots(slots) && DistinctPeople(people)
    requires Names(names, people)
    ensures var again := AddNames(CollectNames(LargestFirst(Owing(slots, names))), people);
            again.Ok? && Owing(slots, again.value) == Owing(slots, names)
  {
    var read := CollectNames(LargestFirst(Owing(slots, names)));
    NamesDoNotCollide(slots, names, people);
    AddNamesGives(read, people);
    hide AddNames, CollectNames, Owing, LargestFirst, Cents, Lookup, Collides, DistinctPeople;
    var again := AddNames(read, people).value;
    forall i | 0 <= i < |slots| && Cents(slots[i].entries) > 0
      ensures NameFor(again, slots[i].slug) == NameFor(names, slots[i].slug)
    {
      NameSettles(slots, names, people, again, i);
    }
    OwingByNames(slots, again, names);
  }

  /** Importing the same statement again succeeds and changes neither entries nor people. */
  lemma ReimportIsIdempotent(existing: Sidecar, next: Import)
    requires WellShaped(next) && DistinctSlots(existing.bySlug) && Merge(existing, next).Ok?
    ensures Merge(Merge(existing, next).value, next) == Merge(existing, next)
  {
    hide *;
    var names := MergeHasNames(existing, next);
    MergeIs(existing, next, names);
    MergedParts(existing, next, names);
    MergeSettles(MergedSlots(existing.bySlug, next), names, existing.imports[next.event := next.receipt], next);
  }

  lemma MergeHasNames(existing: Sidecar, next: Import) returns (names: map<string, string>)
    requires Merge(existing, next).Ok?
    ensures AddNames(CollectNames(existing.people), next.people) == Ok(names)
  {
    names := AddNames(CollectNames(existing.people), next.people).value;
  }

  /** A sidecar that already holds an import is what merging the import again gives. */
  lemma MergeSettles(slots: seq<Slot>, names: map<string, string>, imports: map<string, Receipt>, next: Import)
    requires DistinctSlots(slots) && MergedSlots(slots, next) == slots
    requires DistinctPeople(next.people) && Names(names, next.people)
    requires next.event in imports && imports[next.event] == next.receipt
    ensures var settled := Sidecar(slots, LargestFirst(Owing(slots, names)), imports);
            Merge(settled, next) == Ok(settled)
  {
    hide *;
    var settled := Sidecar(slots, LargestFirst(Owing(slots, names)), imports);
    OwingSettles(slots, names, next.people);
    MergeIs(settled, next, AddNames(CollectNames(settled.people), next.people).value);
    assert imports[next.event := next.receipt] == imports;
  }

  lemma MergeIs(existing: Sidecar, next: Import, names: map<string, string>)
    requires AddNames(CollectNames(existing.people), next.people) == Ok(names)
    ensures var slots := MergedSlots(existing.bySlug, next);
            Merge(existing, next)
            == Ok(Sidecar(slots, LargestFirst(Owing(slots, names)), existing.imports[next.event := next.receipt]))
  {}

  lemma MergedParts(existing: Sidecar, next: Import, names: map<string, string>)
    requires WellShaped(next) && DistinctSlots(existing.bySlug)
    requires AddNames(CollectNames(existing.people), next.people) == Ok(names)
    ensures var slots := MergedSlots(existing.bySlug, next);
            DistinctSlots(slots) && MergedSlots(slots, next) == slots
    ensures DistinctPeople(next.people) && Names(names, next.people)
  {
    MergeLooksUp(existing.bySlug, next, "");
    SlotsSettle(existing.bySlug, next);
    AddNamesGives(CollectNames(existing.people), next.people);
    hide AddNames, CollectNames, MergedSlots, DistinctSlots, DistinctPeople, NameIs, Lookup;
  }

  lemma NameSettles(slots: seq<Slot>, names: map<string, string>, people: seq<Person>,
                    again: map<string, string>, i: nat)
    requires DistinctSlots(slots) && i < |slots| && Cents(slots[i].entries) > 0
    requires forall k | 0 <= k < |people| ::
               NameIs(names, people[k].slug, people[k].name) && NameIs(again, people[k].slug, people[k].name)
    requires forall slug | !Listed(people, slug) ::
               SameName(again, CollectNames(LargestFirst(Owing(slots, names))), slug)
    ensures NameFor(names, slots[i].slug) == NameFor(again, slots[i].slug)
  {
    var slug := slots[i].slug;
    IndexIsUnique(slots, i);
    NamesReadBack(slots, names, slug);
    if Listed(people, slug) {
      var k :| 0 <= k < |people| && people[k].slug == slug;
      assert NameIs(names, people[k].slug, people[k].name);
    } else {
      assert SameName(again, CollectNames(LargestFirst(Owing(slots, names))), slug);
    }
  }

  // ----- the slots of a merge, in order

  ghost function Slugs(slots: seq<Slot>): (slugs: seq<string>)
    ensures |slugs| == |slots| && forall i | 0 <= i < |slots| :: slugs[i] == slots[i].slug
  {
    seq(|slots|, i requires 0 <= i < |slots| => slots[i].slug)
  }

  /** Of the slots, the slugs with an entry of another event. */
  ghost function StillOwing(slots: seq<Slot>, event: string): seq<string> {
    if slots == [] then []
    else
      var last := slots[|slots| - 1];
      StillOwing(slots[..|slots| - 1], event)
      + if exists k :: 0 <= k < |last.entries| && last.entries[k].event != event then [last.slug] else []
  }

  /** Of the slots, the slugs that are new. */
  ghost function Newcomers(slots: seq<Slot>, known: seq<string>): seq<string> {
    if slots == [] then []
    else
      var last := slots[|slots| - 1];
      Newcomers(slots[..|slots| - 1], known) + if last.slug in known then [] else [last.slug]
  }

  lemma {:induction false} WithoutIsEmpty(entries: seq<Entry>, event: string)
    ensures Without(entries, event) == [] <==> AllOf(entries, event)
  {
    if entries != [] {
      WithoutIsEmpty(entries[..|entries| - 1], event);
    }
  }

  lemma {:induction false} KeepsStillOwing(slots: seq<Slot>, event: string)
    ensures Slugs(Keep(slots, event)) == StillOwing(slots, event)
  {
    if slots != [] {
      var front, last := slots[..|slots| - 1], slots[|slots| - 1];
      KeepsStillOwing(front, event);
      WithoutIsEmpty(last.entries, event);
      var own := Without(last.entries, event);
      assert Keep(slots, event) == Keep(front, event) + if own != [] then [Slot(last.slug, own)] else [];
      hide Without;
    }
  }

  lemma {:induction false} AppendsNewcomers(slots: seq<Slot>, more: seq<Slot>)
    requires DistinctSlots(more)
    ensures Slugs(AppendAll(slots, more)) == Slugs(slots) + Newcomers(more, Slugs(slots))
  {
    if more == [] {
    } else {
      var front, last := more[..|more| - 1], more[|more| - 1];
      AppendsNewcomers(slots, front);
      var all, known := AppendAll(slots, front), Slugs(slots);
      NewcomersAre(front, known, last.slug);
      SlugsOfAppend(all, last.slug, last.entries);
      assert Newcomers(more, known) == Newcomers(front, known) + if last.slug in known then [] else [last.slug];
      assert AppendAll(slots, more) == Append(all, last.slug, last.entries);
      hide AppendAll, Append, Newcomers, Slugs;
    }
  }

  lemma {:induction false} NewcomersAre(slots: seq<Slot>, known: seq<string>, slug: string)
    requires forall i | 0 <= i < |slots| :: slots[i].slug != slug
    ensures slug !in Newcomers(slots, known)
  {
    if slots != [] {
      NewcomersAre(slots[..|slots| - 1], known, slug);
    }
  }

  lemma SlugsOfAppend(slots: seq<Slot>, slug: string, entries: seq<Entry>)
    ensures Slugs(Append(slots, slug, entries)) == Slugs(slots) + if slug in Slugs(slots) then [] else [slug]
  {
    var i := IndexOf(slots, slug);
    if i.Some? {
      assert Slugs(slots)[i.value] == slug;
    }
  }

  /** A merge keeps, in order, the slugs that still owe for another event, and adds those that are
      new in the order of the import; nobody is left with no entry. */
  lemma MergeOrdersSlots(slots: seq<Slot>, next: Import)
    requires DistinctSlots(slots) && DistinctSlots(next.bySlug)
    requires forall i | 0 <= i < |next.bySlug| :: next.bySlug[i].entries != []
    ensures var kept, merged := StillOwing(slots, next.event), MergedSlots(slots, next);
            && Slugs(merged) == kept + Newcomers(next.bySlug, kept)
            && forall i | 0 <= i < |merged| :: merged[i].entries != []
  {
    KeepsStillOwing(slots, next.event);
    AppendsNewcomers(Keep(slots, next.event), next.bySlug);
    KeepHasEntries(slots, next.event);
    AppendAllHasEntries(Keep(slots, next.event), next.bySlug);
    hide *;
  }

  ghost predicate HaveEntries(slots: seq<Slot>) {
    forall i | 0 <= i < |slots| :: slots[i].entries != []
  }

  lemma {:induction false} KeepHasEntries(slots: seq<Slot>, event: string)
    ensures HaveEntries(Keep(slots, event))
  {
    hide Without;
    if slots != [] {
      KeepHasEntries(slots[..|slots| - 1], event);
    }
  }

  lemma {:induction false} AppendAllHasEntries(slots: seq<Slot>, more: seq<Slot>)
    requires HaveEntries(slots) && HaveEntries(more)
    ensures HaveEntries(AppendAll(slots, more))
  {
    hide IndexOf;
    if more != [] {
      AppendAllHasEntries(slots, more[..|more| - 1]);
    }
  }
}
