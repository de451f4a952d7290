# IT-service criteria resolution, modelled in Dafny

This project models the criteria-resolution engine of `FilteringService`. A
search request (`SearchCriteria`) holds three nullable collections of
identifiers: `ids` (IT services the caller already knows), `managers` and
`subdivisions`. The engine answers it with a set of IT-service ids:

- a null request, or one without managers and subdivisions, is answered at
  once with the request's own `ids` (empty when null), and no fetch happens;
- otherwise candidates are fetched; if exactly one collection is non-empty,
  the ids of all candidates are returned;
- otherwise the managers and subdivisions are expanded into a cartesian family
  of partial `ItServiceDto` templates, the candidates are filtered by partial
  matching against them, null ids are dropped, and the `ids` allow-list is
  applied when it is non-empty.

The source is pure stream code, so the model is pure too: datatypes, functions
and lemmas, one module per component.

- `model.dfy` (module `ItServices`): `Option` for nullable references; the IT
  service record, whose getters and `toBuilder()` setters are `Get` and `Put`
  over an `Attribute` enumeration; the search criteria, whose fields are
  `Option<set<Id>>` so that null and empty stay distinct values; `Values` and
  `IsEmpty` read null as empty, as `CollectionUtils.isEmpty` and
  `Optional.ofNullable` do.
- `classifier.dfy` (module `Classifier`): `containsOnlyItServiceIds` and
  `hasSingleNonEmptyCriterion`, the second by counting non-empty collections
  as the stream does.
- `patterns.dfy` (module `PatternExpander`): `emitWithAttributeValues`, the
  `flatMap` over templates, `buildMatchPatterns`, and the proofs that the
  patterns are exactly the cartesian product and how many there are.
- `matcher.dfy` (module `PartialMatcher`): `fetchNonNullManagersAndNonNullSubdivisions`,
  `equalsByNonNullManagerAndNonNullSubdivision` and `matchesPatterns`.
- `filtering.dfy` (module `FilteringService`): `findAndFilterItServiceIdsByCriteria`
  and its theorems.

Identifiers are a type parameter `Id`: nothing depends on them being UUIDs.
The candidate fetch is a parameter: `candidates` is whatever set of services
the fetch returned. The fetch gives every service it builds an id
(FilteringService.java:138), so the entry point requires every candidate to
carry one (`Identified`).

## Model

| member | source | states |
|---|---|---|
| `ItServices.Blank` | FilteringService.java:77 | `new ItServiceDto()` has every attribute unset |
| `ItServices.ItService.Put` | FilteringService.java:108-109 | a `toBuilder()` copy with one attribute set has that attribute equal to the new value and every other attribute unchanged |
| `ItServices.Normalize` | FilteringService.java:118-120 | replacing null collections by empty ones keeps each collection's values and leaves none null |
| `Classifier.CountNonEmpty` | FilteringService.java:161-163 | the count equals the number of positions holding a non-null, non-empty collection; so it is at most their number, 0 iff all are null or empty, and equal to their number iff none is |
| `Classifier.ContainsOnlyItServiceIds` | FilteringService.java:68-74 | true iff both `managers` and `subdivisions` are null or empty, whatever `ids` holds |
| `Classifier.HasSingleNonEmptyCriterion` | FilteringService.java:157-164 | true iff exactly one of `ids`, `managers`, `subdivisions` is non-null and non-empty (all three cases spelled out) |
| `Classifier.MultiCriterionShape` | FilteringService.java:49-57 | when neither classifier fires, either `ids` is non-empty or both `managers` and `subdivisions` are |
| `PatternExpander.EmitWithAttributeValues` | FilteringService.java:101-112 | a null or empty collection emits exactly the input template; otherwise every emitted template differs from the input only in the chosen attribute, which holds a value of the collection, and every value of the collection is emitted |
| `PatternExpander.FlatEmitMeaning` | FilteringService.java:78-79 | a `flatMap` stage passes the templates through unchanged for a null or empty collection; otherwise every output has the attribute set to a value of the collection; every output is one of the input templates with only that attribute changed; and every template appears with every value |
| `PatternExpander.EmitCardinality` | FilteringService.java:105-111 | one template fans out to `|values|` templates, or to 1 when the collection is null or empty |
| `PatternExpander.ImageCardinality` | FilteringService.java:107-109 | setting one attribute to each of a set of values gives as many distinct templates as there are values |
| `PatternExpander.FlatEmitCardinality` | FilteringService.java:78-79 | a `flatMap` stage over templates that all leave the attribute unset multiplies the number of templates by the collection's width |
| `PatternExpander.BuildMatchPatterns` | FilteringService.java:76-81 | every pattern has no id, a manager drawn from `managers` (unset iff it is null or empty) and a subdivision drawn from `subdivisions` likewise |
| `PatternExpander.MatchPatternsExactly` | FilteringService.java:76-81 | both directions: a template is a pattern iff it has no id and its manager and subdivision fit their collections, so every combination appears |
| `PatternExpander.MatchPatternCount` | FilteringService.java:76-81 | the number of patterns is the product of the sizes of `managers` and `subdivisions`, a null or empty one counting as 1 |
| `PartialMatcher.FetchNonNullManagersAndNonNullSubdivisions` | FilteringService.java:93-99 | the compared getters are the manager's iff the template sets a manager and the subdivision's iff it sets a subdivision; the id is never compared |
| `PartialMatcher.EqualsByNonNullManagerAndNonNullSubdivision` | FilteringService.java:87-91 | a service matches a template iff it equals the template on each of manager and subdivision that the template sets |
| `PartialMatcher.MatchesPatterns` | FilteringService.java:83-85 | a service matches a family of templates iff it agrees with at least one of them on every attribute that template sets |
| `PartialMatcher.WildcardMatchesEverything` | FilteringService.java:93-99 | a template that sets neither manager nor subdivision matches every service |
| `PartialMatcher.ManagerOnlyTemplate` | FilteringService.java:87-91 | a template that sets only a manager matches exactly the services with that manager, whatever their subdivision |
| `PartialMatcher.IdIsIgnored` | FilteringService.java:94-95 | changing a template's id does not change what it matches |
| `PartialMatcher.MatchesTemplateAttributes` | FilteringService.java:87-99 | a service whose manager and subdivision are those of a template matches it, whatever either id, so a pattern accepts every service it describes |
| `FilteringService.FindAndFilterItServiceIdsByCriteria` | FilteringService.java:35-66 | a null request gives the empty set; a request without managers and subdivisions gives its `ids` (empty if null) whatever the candidates; a single non-empty criterion gives exactly the ids of all candidates; otherwise exactly the ids of candidates matching some pattern, kept only if on the non-empty allow-list |
| `FilteringService.IdsOf` | FilteringService.java:50-52 | the collected ids are exactly the ids of the candidates: each comes from some candidate and every candidate's id is there |
| `FilteringService.FilterByPatterns` | FilteringService.java:57-65 | an id is kept iff it is on the allow-list (when one is given) and belongs to a candidate whose manager is among `managers` (when given) and whose subdivision is among `subdivisions` (when given); candidates without an id contribute nothing |
| `FilteringService.MatchesSomePattern` | FilteringService.java:57-61 | both directions: a candidate matches some pattern iff its manager is among `managers` (when given) and its subdivision among `subdivisions` (when given) |
| `FilteringService.MultiCriterionResult` | FilteringService.java:55-65 | both directions: in the multi-criterion branch an id is returned iff it is on the allow-list (when given) and belongs to a candidate whose manager and subdivision the request accepts |
| `FilteringService.SingleCriterionShortcut` | FilteringService.java:45-52 | when exactly one of `managers` and `subdivisions` is non-empty (and `ids` is empty), returning every candidate's id gives the same ids as the full pattern filter, provided every candidate has a manager and subdivision the request accepts, as the fetch promises |
| `FilteringService.AllowListRespected` | FilteringService.java:39-64 | whenever `ids` is non-empty, nothing outside it is returned, in every branch |
| `FilteringService.ResultDrawnFromCandidates` | FilteringService.java:46-65 | once a fetch happens, every returned id is the id of some candidate |
| `FilteringService.NullsAreEmpty` | FilteringService.java:118-120 | resolving a request gives the same ids as resolving it with its null collections replaced by empty ones, so the fetch's normalisation of the caller's request is unobservable to the engine |
| `FilteringService.OneManagerTwoSubdivisions` | FilteringService.java:76-81 | one manager and two distinct subdivisions expand to exactly the two patterns (m, s1) and (m, s2) |
| `FilteringService.AllowListAppliedAfterMatching` | FilteringService.java:60-65 | with `ids = {x}`, one manager and one subdivision, of two candidates that both match, only the one with id `x` is returned |

## Left out

- `main` and `log` (FilteringService.java:15-33, 166-169): the entry point and console output.
- `fetchServicesMatchingCriteria` (FilteringService.java:114-140): it draws random UUIDs and runs a no-op filler; the model takes its result as the parameter `candidates`, of which the entry point assumes only that every service carries an id (line 138). The single-criterion branch (lines 49-52) trusts the fetch to return only matching services (line 45) and returns every candidate's id unfiltered, so given a non-matching candidate the model returns its id too; `SingleCriterionShortcut` shows that the branch agrees with the pattern filter whenever the fetch keeps that promise.
- `FilteringService.FindAndFilterItServiceIdsByCriteria`: requires identified candidates, because the single-criterion branch (lines 50-52) does not drop null ids and a null element cannot be part of a `set<Id>`; the fetch never returns a service without an id.
- The fetch's in-place rewriting of the caller's null collections to empty ones (lines 118-120) is not modelled as a mutation; `NullsAreEmpty` shows it cannot change the engine's answer. Likewise the ids-only branch hands back the caller's own collection object; the model returns its value, so aliasing is not captured.
- `emitExemplarWithAttributes_1` (FilteringService.java:142-155): an unused generic duplicate of `emitWithAttributeValues`.
- `EqualityUtil.equalsByCertainAttributes`: its code is not shown; `PartialMatcher.EqualsByCertainAttributes` takes it to mean equality on the listed getters, as its name and its use suggest, and that assumption is not verified.
- The Java classes `ItServiceDto` and `SearchCriteria` are not part of this model; their Dafny counterparts assume that `new ItServiceDto()` leaves id, manager and subdivision null (no field initialisers), that `ItServiceDto` equality is structural over (id, manager, subdivision), as collecting into a set needs, and that the criteria collections are sets, without duplicates.
- Null elements inside a non-null criteria collection are not modelled: the collections hold identifiers only. In the source such an element counts towards the collection being non-empty (lines 73, 162); in `managers` or `subdivisions` it yields a template with that attribute unset (line 108), which is a wildcard for it (lines 93-97), and in `ids` alone it is returned as a null id (line 41).
- Lombok builders and `@NonNull`, and stream laziness and order: replaced by records, set comprehensions and functions; results are sets, so order never mattered.
- Repeating a call with the same request and candidates gives the same ids, since every member is a function; no lemma states this separately.
