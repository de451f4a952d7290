/**
  Which of the three criteria collections are non-empty: the two predicates
  the orchestrator uses to pick its branch.
*/
module Classifier {
  import opened ItServices

  /** The positions of the non-null, non-empty collections. */
  ghost function NonEmptyPositions<Id>(cs: seq<Option<set<Id>>>): set<int>
  {
    set i | 0 <= i < |cs| && !IsEmpty(cs[i])
  }

  /** How many of the collections are non-empty: `filter(isNotEmpty).count()`. */
  function CountNonEmpty<Id>(cs: seq<Option<set<Id>>>): (n: nat)
    ensures n == |NonEmptyPositions(cs)|
    ensures n <= |cs|
    ensures n == 0 <==> forall i :: 0 <= i < |cs| ==> IsEmpty(cs[i])
    ensures n == |cs| <==> forall i :: 0 <= i < |cs| ==> !IsEmpty(cs[i])
  {
    if cs == [] then 0
    else
      var last := |cs| - 1;
      var init := cs[..last];
      var rest := CountNonEmpty(init);
      assert forall i :: 0 <= i < last ==> cs[i] == init[i];
      PositionsOfLast(cs);
      rest + Indicator(cs[last])
  }

  /** The last collection adds its own position, if non-empty, to those of the others. */
  lemma PositionsOfLast<Id>(cs: seq<Option<set<Id>>>)
    requires cs != []
    ensures |NonEmptyPositions(cs)| == |NonEmptyPositions(cs[..|cs| - 1])| + Indicator(cs[|cs| - 1])
  {
    var last := |cs| - 1;
    var before := NonEmptyPositions(cs[..last]);
    var own: set<int> := if IsEmpty(cs[last]) then {} else {last};
    assert NonEmptyPositions(cs) == before + own;
    assert last !in before;
    assert before !! own;
  }

  /** 1 for a non-empty collection, 0 for a null or empty one. */
  function Indicator<Id>(o: Option<set<Id>>): nat
  {
    if IsEmpty(o) then 0 else 1
  }

  /** Neither managers nor subdivisions are given (whatever `ids` holds). */
  function ContainsOnlyItServiceIds<Id>(c: SearchCriteria<Id>): (r: bool)
    ensures r <==> Values(c.managers) == {} && Values(c.subdivisions) == {}
  {
    var getters := [c.managers, c.subdivisions];
    assert getters[0] == c.managers && getters[1] == c.subdivisions;
    forall i :: 0 <= i < |getters| ==> IsEmpty(getters[i])
  }

  /** Exactly one of `ids`, `managers`, `subdivisions` is non-null and non-empty. */
  function HasSingleNonEmptyCriterion<Id>(c: SearchCriteria<Id>): (r: bool)
    ensures r <==>
      || (Values(c.ids) != {} && Values(c.managers) == {} && Values(c.subdivisions) == {})
      || (Values(c.ids) == {} && Values(c.managers) != {} && Values(c.subdivisions) == {})
      || (Values(c.ids) == {} && Values(c.managers) == {} && Values(c.subdivisions) != {})
  {
    var getters := [c.ids, c.managers, c.subdivisions];
    assert NonEmptyPositions(getters)
        == (if IsEmpty(c.ids) then {} else {0}) + (if IsEmpty(c.managers) then {} else {1}) + (if IsEmpty(c.subdivisions) then {} else {2});
    CountNonEmpty(getters) == 1
  }

  /**
    When criteria name managers or subdivisions and more than one collection
    is non-empty, then either the ids are given or both attribute
    collections are.
  */
  lemma MultiCriterionShape<Id>(c: SearchCriteria<Id>)
    requires !ContainsOnlyItServiceIds(c) && !HasSingleNonEmptyCriterion(c)
    ensures Values(c.ids) != {} || (Values(c.managers) != {} && Values(c.subdivisions) != {})
  {
  }
}
