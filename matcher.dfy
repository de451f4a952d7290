/**
  The partial matcher: a found IT service matches a template when it agrees
  with the template on the manager and the subdivision, but only on those of
  the two the template sets. Unset template attributes are wildcards; the
  found service's own unset attributes are compared like any other value.
*/
module PartialMatcher {
  import opened ItServices

  /** The getters a template compares: manager and subdivision, each only when it is set on the template. */
  function FetchNonNullManagersAndNonNullSubdivisions<Id>(model: ItService<Id>): (r: set<Attribute>)
    ensures ServiceId !in r
    ensures Manager in r <==> model.manager.Some?
    ensures Subdivision in r <==> model.subdivision.Some?
  {
    set a | a in {Manager, Subdivision} && model.Get(a).Some?
  }

  /**
    Equality of two services on the listed getters only: the meaning taken
    for the foreign helper `EqualityUtil.equalsByCertainAttributes`.
  */
  predicate EqualsByCertainAttributes<Id(==)>(model: ItService<Id>, found: ItService<Id>, getters: set<Attribute>)
  {
    forall a :: a in getters ==> model.Get(a) == found.Get(a)
  }

  /** Whether `found` matches template `model`. */
  function EqualsByNonNullManagerAndNonNullSubdivision<Id(==)>(found: ItService<Id>, model: ItService<Id>): (r: bool)
    ensures r <==>
      && (model.manager.Some? ==> found.manager == model.manager)
      && (model.subdivision.Some? ==> found.subdivision == model.subdivision)
  {
    var getters := FetchNonNullManagersAndNonNullSubdivisions(model);
    assert model.manager.Some? ==> model.Get(Manager) == model.manager && Manager in getters;
    assert model.subdivision.Some? ==> model.Get(Subdivision) == model.subdivision && Subdivision in getters;
    EqualsByCertainAttributes(model, found, getters)
  }

  /** Whether `found` matches at least one of the templates. */
  function MatchesPatterns<Id(==)>(models: set<ItService<Id>>, found: ItService<Id>): (r: bool)
    ensures r <==>
      exists m ::
        && m in models
        && (m.manager.Some? ==> found.manager == m.manager)
        && (m.subdivision.Some? ==> found.subdivision == m.subdivision)
  {
    exists m :: m in models && EqualsByNonNullManagerAndNonNullSubdivision(found, m)
  }

  /** A template with neither manager nor subdivision set matches every service. */
  lemma WildcardMatchesEverything<Id>(found: ItService<Id>, model: ItService<Id>)
    requires model.manager == None && model.subdivision == None
    ensures EqualsByNonNullManagerAndNonNullSubdivision(found, model)
  {
  }

  /** A template that sets only the manager matches exactly the services with that manager, whatever their subdivision. */
  lemma ManagerOnlyTemplate<Id>(found: ItService<Id>, m: Id, id: Option<Id>)
    ensures EqualsByNonNullManagerAndNonNullSubdivision(found, ItService(id, Some(m), None)) <==> found.manager == Some(m)
  {
  }

  /** The template's id is never compared. */
  lemma IdIsIgnored<Id>(found: ItService<Id>, model: ItService<Id>, id: Option<Id>)
    ensures EqualsByNonNullManagerAndNonNullSubdivision(found, model.(id := id)) == EqualsByNonNullManagerAndNonNullSubdivision(found, model)
  {
  }

  /**
    A service carrying a template's own manager and subdivision matches that
    template, whatever either id: a pattern never rejects the services it was
    built to describe.
  */
  lemma MatchesTemplateAttributes<Id>(found: ItService<Id>, model: ItService<Id>)
    requires found.manager == model.manager && found.subdivision == model.subdivision
    ensures EqualsByNonNullManagerAndNonNullSubdivision(found, model)
  {
  }
}
