/** The registry that keeps source users, canonical names and slugs one-to-one. Names and slugs
    arrive here already normalised; an id that is not a positive safe integer is None. */
module IdentityRegistry {
  import opened Common

  datatype Person = Person(id: Option<nat>, name: string, nameKey: string, slug: string)

  datatype Identity = Identity(sourceId: nat, name: string, nameKey: string, slug: string)

  datatype Rejection = NoStableId | NoName | NoSlug | IdAmbiguous | NameAmbiguous | SlugAmbiguous

  datatype Maps = Maps(byId: map<nat, Identity>, byName: map<string, Identity>, bySlug: map<string, Identity>)

  const NOBODY := Maps(map[], map[], map[])

  predicate WellFormed(p: Person) {
    p.id.Some? && p.id.value > 0 && p.name != "" && p.slug != ""
  }

  /** What one call does to the maps, or why it is rejected. */
  function Register(m: Maps, p: Person): Result<Maps, Rejection> {
    if p.id.None? || p.id.value == 0 then Err(NoStableId)
    else if p.name == "" then Err(NoName)
    else if p.slug == "" then Err(NoSlug)
    else
      var i := Identity(p.id.value, p.name, p.nameKey, p.slug);
      if i.sourceId in m.byId
         && (m.byId[i.sourceId].nameKey != i.nameKey || m.byId[i.sourceId].slug != i.slug) then Err(IdAmbiguous)
      else if i.nameKey in m.byName
              && (m.byName[i.nameKey].sourceId != i.sourceId || m.byName[i.nameKey].slug != i.slug)
           then Err(NameAmbiguous)
      else if i.slug in m.bySlug
              && (m.bySlug[i.slug].sourceId != i.sourceId || m.bySlug[i.slug].nameKey != i.nameKey)
           then Err(SlugAmbiguous)
      else Ok(Maps(m.byId[i.sourceId := i], m.byName[i.nameKey := i], m.bySlug[i.slug := i]))
  }

  class Registry {
    var bySourceId: map<nat, Identity>
    var byCanonicalName: map<string, Identity>
    var bySlug: map<string, Identity>

    constructor ()
      ensures Contents() == NOBODY
    {
      bySourceId, byCanonicalName, bySlug := map[], map[], map[];
    }

    ghost function Contents(): Maps
      reads this
    {
      Maps(bySourceId, byCanonicalName, bySlug)
    }

    /** A rejected call changes nothing; an accepted one updates all three maps. */
    method RegisterPerson(p: Person) returns (r: Result<Identity, Rejection>)
      modifies this
      ensures var spec := Register(old(Contents()), p);
              && (r.Err? <==> spec.Err?)
              && (r.Err? ==> r.error == spec.error && Contents() == old(Contents()))
              && (r.Ok? ==> Contents() == spec.value)
              && (r.Ok? ==> r.value == Identity(p.id.value, p.name, p.nameKey, p.slug))
    {
      if p.id.None? || p.id.value == 0 {
        return Err(NoStableId);
      }
      if p.name == "" {
        return Err(NoName);
      }
      if p.slug == "" {
        return Err(NoSlug);
      }
      var identity := Identity(p.id.value, p.name, p.nameKey, p.slug);
      if identity.sourceId in bySourceId {
        var prior := bySourceId[identity.sourceId];
        if prior.nameKey != identity.nameKey || prior.slug != identity.slug {
          return Err(IdAmbiguous);
        }
      }
      if identity.nameKey in byCanonicalName {
        var prior := byCanonicalName[identity.nameKey];
        if prior.sourceId != identity.sourceId || prior.slug != identity.slug {
          return Err(NameAmbiguous);
        }
      }
      if identity.slug in bySlug {
        var prior := bySlug[identity.slug];
        if prior.sourceId != identity.sourceId || prior.nameKey != identity.nameKey {
          return Err(SlugAmbiguous);
        }
      }
      bySourceId := bySourceId[identity.sourceId := identity];
      byCanonicalName := byCanonicalName[identity.nameKey := identity];
      bySlug := bySlug[identity.slug := identity];
      return Ok(identity);
    }
  }

  // ----- the maps stay one-to-one

  /** The three maps hold the same identities, each under its own id, name key and slug. */
  ghost predicate OneToOne(m: Maps) {
    && (forall id | id in m.byId ::
          var i := m.byId[id];
          && i.sourceId == id
          && i.nameKey in m.byName && m.byName[i.nameKey] == i
          && i.slug in m.bySlug && m.bySlug[i.slug] == i)
    && (forall name | name in m.byName ::
          var i := m.byName[name]; i.nameKey == name && i.sourceId in m.byId && m.byId[i.sourceId] == i)
    && (forall slug | slug in m.bySlug ::
          var i := m.bySlug[slug]; i.slug == slug && i.sourceId in m.byId && m.byId[i.sourceId] == i)
  }

  lemma RegisterKeepsOneToOne(m: Maps, p: Person)
    requires OneToOne(m) && Register(m, p).Ok?
    ensures OneToOne(Register(m, p).value)
    ensures var id, after := p.id.value, Register(m, p).value.byId;
            && id in after && after[id] == Identity(id, p.name, p.nameKey, p.slug)
            && after.Keys == m.byId.Keys + {id}
            && forall other | other in m.byId && other != id :: after[other] == m.byId[other]
  {
    var after := Register(m, p).value;
    var i := Identity(p.id.value, p.name, p.nameKey, p.slug);
    forall id | id in after.byId
      ensures var j := after.byId[id];
              j.sourceId == id && j.nameKey in after.byName && after.byName[j.nameKey] == j
              && j.slug in after.bySlug && after.bySlug[j.slug] == j
    {
      if id != i.sourceId {
        var j := m.byId[id];
        assert j.nameKey != i.nameKey && j.slug != i.slug;
      }
    }
  }

  // ----- which sequences of people are accepted

  function RegisterAll(people: seq<Person>): Result<Maps, Rejection> {
    if people == [] then Ok(NOBODY)
    else
      var before := RegisterAll(people[..|people| - 1]);
      if before.Err? then before else Register(before.value, people[|people| - 1])
  }

  /** Two people agree on id, name key and slug, or differ on all three. */
  predicate Compatible(p: Person, q: Person) {
    (p.id == q.id <==> p.nameKey == q.nameKey) && (p.id == q.id <==> p.slug == q.slug)
  }

  ghost predicate Holds(m: Maps, p: Person) {
    && p.id.Some? && p.id.value in m.byId
    && m.byId[p.id.value].nameKey == p.nameKey && m.byId[p.id.value].slug == p.slug
  }

  ghost predicate IdOf(people: seq<Person>, id: nat) {
    exists p :: p in people && p.id == Some(id)
  }

  /** The maps know exactly these people. */
  ghost predicate Knows(m: Maps, people: seq<Person>) {
    && OneToOne(m)
    && (forall p | p in people :: Holds(m, p))
    && (forall id | id in m.byId :: IdOf(people, id))
  }

  /** Someone new is accepted exactly when well formed and compatible with everyone known. */
  lemma RegisterAccepts(m: Maps, people: seq<Person>, p: Person)
    requires Knows(m, people)
    ensures Register(m, p).Ok? <==> WellFormed(p) && forall q | q in people :: Compatible(q, p)
  {
    if WellFormed(p) && forall q | q in people :: Compatible(q, p) {
      if p.id.value in m.byId {
        var q :| q in people && q.id == p.id;
        assert Compatible(q, p);
      }
      if p.nameKey in m.byName {
        var q :| q in people && q.id == Some(m.byName[p.nameKey].sourceId);
        assert Compatible(q, p);
      }
      if p.slug in m.bySlug {
        var q :| q in people && q.id == Some(m.bySlug[p.slug].sourceId);
        assert Compatible(q, p);
      }
    }
  }

  /** `q` shares what `same` says with `p`, and not everything. */
  ghost predicate Clashes(people: seq<Person>, p: Person, same: Person -> bool) {
    exists q :: q in people && same(q) && !(q.id == p.id && q.nameKey == p.nameKey && q.slug == p.slug)
  }

  /** Which rejection it is: first what is missing, then a clash over the id, then one over the
      name, then one over the slug, with someone registered before. */
  lemma RejectionMeans(m: Maps, people: seq<Person>, p: Person)
    requires Knows(m, people) && Register(m, p).Err?
    ensures var byId := Clashes(people, p, (q: Person) => q.id == p.id);
            var byName := Clashes(people, p, (q: Person) => q.nameKey == p.nameKey);
            Register(m, p).error
            == if p.id.None? || p.id.value == 0 then NoStableId
               else if p.name == "" then NoName
               else if p.slug == "" then NoSlug
               else if byId then IdAmbiguous
               else if byName then NameAmbiguous
               else SlugAmbiguous
  {
    hide Clashes;
    if WellFormed(p) {
      ClashById(m, people, p);
      ClashByName(m, people, p);
    }
  }

  lemma ClashById(m: Maps, people: seq<Person>, p: Person)
    requires Knows(m, people) && WellFormed(p)
    ensures Clashes(people, p, (q: Person) => q.id == p.id) <==>
              p.id.value in m.byId && (m.byId[p.id.value].nameKey != p.nameKey || m.byId[p.id.value].slug != p.slug)
  {
    if p.id.value in m.byId {
      assert IdOf(people, p.id.value);
      var q :| q in people && q.id == p.id;
      assert Holds(m, q);
    }
    forall q | q in people && q.id == p.id ensures Holds(m, q) {}
    hide OneToOne;
  }

  lemma ClashByName(m: Maps, people: seq<Person>, p: Person)
    requires Knows(m, people) && WellFormed(p)
    ensures Clashes(people, p, (q: Person) => q.nameKey == p.nameKey) <==>
              && p.nameKey in m.byName
              && (m.byName[p.nameKey].sourceId != p.id.value || m.byName[p.nameKey].slug != p.slug)
  {
    if p.nameKey in m.byName {
      assert IdOf(people, m.byName[p.nameKey].sourceId);
      var q :| q in people && q.id == Some(m.byName[p.nameKey].sourceId);
      assert Holds(m, q);
    }
    forall q | q in people && q.nameKey == p.nameKey ensures Holds(m, q) {}
  }

  lemma RegisterLearns(m: Maps, people: seq<Person>, p: Person)
    requires Knows(m, people) && Register(m, p).Ok?
    ensures Knows(Register(m, p).value, people + [p])
  {
    RegisterKeepsOneToOne(m, p);
    hide OneToOne;
    var after := Register(m, p).value;
    forall q | q in people + [p] ensures Holds(after, q) {
      if q in people {
        assert Holds(m, q);
      }
    }
    forall id | id in after.byId ensures IdOf(people + [p], id) {
      if id == p.id.value {
        assert p in people + [p];
      } else {
        assert IdOf(people, id);
        var q :| q in people && q.id == Some(id);
        assert q in people + [p];
      }
    }
  }

  lemma CompatibleIsMutual(p: Person)
    ensures Compatible(p, p) && forall q :: Compatible(p, q) <==> Compatible(q, p)
  {}

  lemma {:induction false} RegisterAllAccepts(people: seq<Person>)
    ensures RegisterAll(people).Ok? <==>
              && (forall p | p in people :: WellFormed(p))
              && forall p, q | p in people && q in people :: Compatible(p, q)
    ensures RegisterAll(people).Ok? ==> Knows(RegisterAll(people).value, people)
  {
    if people == [] {
      assert Knows(NOBODY, []);
    } else {
      var front, last := people[..|people| - 1], people[|people| - 1];
      RegisterAllAccepts(front);
      hide Register, Knows, Compatible, WellFormed;
      assert people == front + [last];
      assert forall p :: p in people <==> p in front || p == last;
      if RegisterAll(front).Ok? {
        RegisterAccepts(RegisterAll(front).value, front, last);
        CompatibleIsMutual(last);
        if RegisterAll(people).Ok? {
          RegisterLearns(RegisterAll(front).value, front, last);
        }
      }
    }
  }

  /** So the order in which people arrive does not decide whether they are accepted, and an
      accepted sequence leaves the three maps one-to-one. */
  lemma AcceptanceIgnoresOrder(a: seq<Person>, b: seq<Person>)
    requires multiset(a) == multiset(b)
    ensures RegisterAll(a).Ok? <==> RegisterAll(b).Ok?
    ensures RegisterAll(a).Ok? ==> OneToOne(RegisterAll(a).value)
  {
    RegisterAllAccepts(a);
    RegisterAllAccepts(b);
    assert forall p :: p in a <==> p in multiset(a);
    assert forall p :: p in b <==> p in multiset(b);
  }
}
