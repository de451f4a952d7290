/**
  The resolution orchestrator: from a (possibly null) search request and the
  IT services the candidate fetch returned for it, the set of IT-service ids
  that satisfy the request.

  The fetch itself is not modelled: `candidates` stands for whatever it
  returned. Where the request is answered without a fetch, the result does
  not depend on `candidates`.
*/
module FilteringService {
  import opened ItServices
  import opened Classifier
  import opened PatternExpander
  import opened PartialMatcher

  /** Every candidate carries an id, as the fetch guarantees by giving a fresh id to each service it builds. */
  predicate Identified<Id(==)>(candidates: set<ItService<Id>>)
  {
    forall s :: s in candidates ==> s.id.Some?
  }

  /** The ids of all candidates: `map(ItServiceDto::getId)` collected into a set. */
  function IdsOf<Id(==)>(candidates: set<ItService<Id>>): (r: set<Id>)
    requires Identified(candidates)
    ensures forall x :: x in r ==> exists s :: s in candidates && s.id == Some(x)
    ensures forall s :: s in candidates ==> s.id.value in r
  {
    set s | s in candidates :: s.id.value
  }

  /**
    The multi-criterion pipeline: keep the candidates matching some pattern,
    drop null ids, then keep the ids on the `ids` allow-list, unless that
    list is null or empty. In terms of the request alone: an id is kept
    exactly when it is on the allow-list (if any) and belongs to a candidate
    whose manager and subdivision the request accepts.
  */
  function FilterByPatterns<Id(==)>(c: SearchCriteria<Id>, candidates: set<ItService<Id>>): (r: set<Id>)
    ensures forall x :: x in r ==>
      && (IsEmpty(c.ids) || x in Values(c.ids))
      && exists s :: s in candidates && s.id == Some(x) && Accepts(s.manager, c.managers) && Accepts(s.subdivision, c.subdivisions)
    ensures forall s :: s in candidates && s.id.Some? && Accepts(s.manager, c.managers) && Accepts(s.subdivision, c.subdivisions) ==>
      IsEmpty(c.ids) || s.id.value in Values(c.ids) ==> s.id.value in r
  {
    var patterns := BuildMatchPatterns(c);
    assert forall s :: s in candidates ==>
      (MatchesPatterns(patterns, s) <==> Accepts(s.manager, c.managers) && Accepts(s.subdivision, c.subdivisions)) by {
      forall s | s in candidates {
        MatchesSomePattern(c, s);
      }
    }
    set s | s in candidates && MatchesPatterns(patterns, s) && s.id.Some? && (IsEmpty(c.ids) || s.id.value in Values(c.ids))
      :: s.id.value
  }

  /** The engine's entry point; `None` stands for a null request. */
  function FindAndFilterItServiceIdsByCriteria<Id(==)>(criteria: Option<SearchCriteria<Id>>, candidates: set<ItService<Id>>): (r: set<Id>)
    requires Identified(candidates)
    // A null request asks for nothing.
    ensures criteria.None? ==> r == {}
    // Without managers and subdivisions the known ids come back unchanged (none if null).
    ensures criteria.Some? && ContainsOnlyItServiceIds(criteria.value) ==> r == Values(criteria.value.ids)
    // A single non-empty criterion: the fetch already applied it, every candidate's id is returned.
    ensures criteria.Some? && !ContainsOnlyItServiceIds(criteria.value) && HasSingleNonEmptyCriterion(criteria.value) ==>
      && (forall x :: x in r ==> exists s :: s in candidates && s.id == Some(x))
      && (forall s :: s in candidates ==> s.id.value in r)
    // Otherwise: the non-null ids of candidates matching some pattern, restricted to the allow-list when one is given.
    ensures criteria.Some? && !ContainsOnlyItServiceIds(criteria.value) && !HasSingleNonEmptyCriterion(criteria.value) ==>
      && (forall x :: x in r ==>
            && (IsEmpty(criteria.value.ids) || x in Values(criteria.value.ids))
            && exists s :: s in candidates && s.id == Some(x) && MatchesPatterns(BuildMatchPatterns(criteria.value), s))
      && (forall s :: s in candidates && MatchesPatterns(BuildMatchPatterns(criteria.value), s) ==>
            IsEmpty(criteria.value.ids) || s.id.value in Values(criteria.value.ids) ==> s.id.value in r)
  {
    if criteria.None? || ContainsOnlyItServiceIds(criteria.value) then
      if criteria.None? then {} else Values(criteria.value.ids)
    else if HasSingleNonEmptyCriterion(criteria.value) then
      IdsOf(candidates)
    else
      FilterByPatterns(criteria.value, candidates)
  }

  /** A candidate's attribute is accepted by a collection of values when the collection is null or empty, or holds it. */
  predicate Accepts<Id>(o: Option<Id>, values: Option<set<Id>>)
  {
    IsEmpty(values) || (o.Some? && o.value in Values(values))
  }

  /** A candidate matches some pattern exactly when its manager and its subdivision are accepted by the criteria. */
  lemma {:induction false} MatchesSomePattern<Id>(c: SearchCriteria<Id>, s: ItService<Id>)
    ensures MatchesPatterns(BuildMatchPatterns(c), s) <==> Accepts(s.manager, c.managers) && Accepts(s.subdivision, c.subdivisions)
  {
    var patterns := BuildMatchPatterns(c);
    if MatchesPatterns(patterns, s) {
      var m :| m in patterns
        && (m.manager.Some? ==> s.manager == m.manager)
        && (m.subdivision.Some? ==> s.subdivision == m.subdivision);
      MatchPatternsExactly(c, m);
    }
    if Accepts(s.manager, c.managers) && Accepts(s.subdivision, c.subdivisions) {
      var m := ItService(None,
        if IsEmpty(c.managers) then None else s.manager,
        if IsEmpty(c.subdivisions) then None else s.subdivision);
      MatchPatternsExactly(c, m);
      assert m in patterns;
    }
  }

  /**
    The multi-criterion branch, in terms of the request alone: an id is
    returned exactly when it is on the allow-list (if any) and belongs to a
    candidate whose manager and subdivision the request accepts.
  */
  lemma MultiCriterionResult<Id>(c: SearchCriteria<Id>, candidates: set<ItService<Id>>, x: Id)
    requires Identified(candidates)
    requires !ContainsOnlyItServiceIds(c) && !HasSingleNonEmptyCriterion(c)
    ensures x in FindAndFilterItServiceIdsByCriteria(Some(c), candidates) <==>
      && (IsEmpty(c.ids) || x in Values(c.ids))
      && exists s :: s in candidates && s.id == Some(x) && Accepts(s.manager, c.managers) && Accepts(s.subdivision, c.subdivisions)
  {
  }

  /**
    The single-criterion shortcut returns every candidate's id unfiltered. It
    agrees with the full pattern filter once the fetch keeps its promise to
    return only services matching the criteria apart from their ids.
  */
  lemma SingleCriterionShortcut<Id>(c: SearchCriteria<Id>, candidates: set<ItService<Id>>)
    requires Identified(candidates)
    requires forall s :: s in candidates ==> Accepts(s.manager, c.managers) && Accepts(s.subdivision, c.subdivisions)
    requires !ContainsOnlyItServiceIds(c) && HasSingleNonEmptyCriterion(c)
    ensures FindAndFilterItServiceIdsByCriteria(Some(c), candidates) == FilterByPatterns(c, candidates)
  {
  }

  /** Whenever the request carries a non-empty allow-list, no id outside it is returned. */
  lemma AllowListRespected<Id>(c: SearchCriteria<Id>, candidates: set<ItService<Id>>)
    requires Identified(candidates)
    requires !IsEmpty(c.ids)
    ensures FindAndFilterItServiceIdsByCriteria(Some(c), candidates) <= Values(c.ids)
  {
  }

  /** Once a fetch happens, every id returned belongs to a candidate. */
  lemma ResultDrawnFromCandidates<Id>(c: SearchCriteria<Id>, candidates: set<ItService<Id>>)
    requires Identified(candidates)
    requires !ContainsOnlyItServiceIds(c)
    ensures FindAndFilterItServiceIdsByCriteria(Some(c), candidates) <= IdsOf(candidates)
  {
  }

  /**
    A null collection and an empty one are interchangeable: resolving the
    request gives what resolving it with every null collection replaced by
    an empty one gives, so normalising the request changes nothing.
  */
  lemma NullsAreEmpty<Id>(c: SearchCriteria<Id>, candidates: set<ItService<Id>>)
    requires Identified(candidates)
    ensures FindAndFilterItServiceIdsByCriteria(Some(c), candidates) == FindAndFilterItServiceIdsByCriteria(Some(Normalize(c)), candidates)
  {
  }

  /** One manager and two subdivisions expand to exactly two patterns. */
  lemma OneManagerTwoSubdivisions<Id>(m: Id, s1: Id, s2: Id)
    requires s1 != s2
    ensures BuildMatchPatterns(SearchCriteria(None, Some({m}), Some({s1, s2})))
         == {ItService(None, Some(m), Some(s1)), ItService(None, Some(m), Some(s2))}
  {
    var c := SearchCriteria(None, Some({m}), Some({s1, s2}));
    forall p ensures p in BuildMatchPatterns(c) <==> p == ItService(None, Some(m), Some(s1)) || p == ItService(None, Some(m), Some(s2)) {
      MatchPatternsExactly(c, p);
    }
  }

  /** With an allow-list, a matching candidate whose id is not on it is left out. */
  lemma AllowListAppliedAfterMatching<Id>(x: Id, y: Id, m: Id, sub: Id)
    requires x != y
    ensures FindAndFilterItServiceIdsByCriteria(
              Some(SearchCriteria(Some({x}), Some({m}), Some({sub}))),
              {ItService(Some(x), Some(m), Some(sub)), ItService(Some(y), Some(m), Some(sub))})
         == {x}
  {
  }
}
