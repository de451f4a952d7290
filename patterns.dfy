/**
  The pattern expander: from the criteria's managers and subdivisions it
  builds the cartesian family of partial IT services used as match templates.
  An empty or null collection leaves its attribute unset (a wildcard) instead
  of wiping out the product.
*/
module PatternExpander {
  import opened ItServices

  /** The number of templates one collection fans out to: an empty collection counts as 1. */
  function Width<Id>(o: Option<set<Id>>): nat
  {
    if IsEmpty(o) then 1 else |Values(o)|
  }

  /**
    The templates emitted for template `t`: `t` itself when `values` is null or
    empty, otherwise one copy of `t` per value with attribute `attr` set to it.
  */
  function EmitWithAttributeValues<Id(==)>(values: Option<set<Id>>, attr: Attribute, t: ItService<Id>): (r: set<ItService<Id>>)
    ensures IsEmpty(values) ==> r == {t}
    ensures forall p :: p in r ==> p.Put(attr, t.Get(attr)) == t
    ensures !IsEmpty(values) ==> forall p :: p in r ==> p.Get(attr).Some? && p.Get(attr).value in Values(values)
    ensures forall v :: v in Values(values) ==> t.Put(attr, Some(v)) in r
  {
    if IsEmpty(values) then {t}
    else
      var r := set v | v in Values(values) :: t.Put(attr, Some(v));
      assert forall p :: p in r ==> p.Put(attr, t.Get(attr)) == t by {
        forall p | p in r ensures p.Put(attr, t.Get(attr)) == t {
          var v :| v in Values(values) && p == t.Put(attr, Some(v));
          PutPut(t, attr, Some(v));
        }
      }
      r
  }

  /** Overwriting an attribute with its own old value restores the service. */
  lemma PutPut<Id>(t: ItService<Id>, a: Attribute, o: Option<Id>)
    ensures t.Put(a, o).Put(a, t.Get(a)) == t
  {
  }

  /** `flatMap(emitWithAttributeValues(values, attr))` over a stream of templates. */
  function FlatEmit<Id(==)>(ts: set<ItService<Id>>, values: Option<set<Id>>, attr: Attribute): set<ItService<Id>>
  {
    set t, p | t in ts && p in EmitWithAttributeValues(values, attr, t) :: p
  }

  /**
    What one `flatMap` stage does to a family of templates: a null or empty
    collection passes the family through unchanged; otherwise every output
    has the attribute set to one of the values and is one of the templates
    with only that attribute changed, and every template appears with every
    value.
  */
  lemma FlatEmitMeaning<Id>(ts: set<ItService<Id>>, values: Option<set<Id>>, attr: Attribute)
    ensures IsEmpty(values) ==> FlatEmit(ts, values, attr) == ts
    ensures !IsEmpty(values) ==> forall p :: p in FlatEmit(ts, values, attr) ==> p.Get(attr).Some? && p.Get(attr).value in Values(values)
    ensures forall p :: p in FlatEmit(ts, values, attr) ==> exists t :: t in ts && p.Put(attr, t.Get(attr)) == t
    ensures forall t, v :: t in ts && v in Values(values) ==> t.Put(attr, Some(v)) in FlatEmit(ts, values, attr)
  {
    FlatEmitPassThrough(ts, values, attr);
    FlatEmitOrigin(ts, values, attr);
    FlatEmitCoverage(ts, values, attr);
  }

  /** A null or empty collection leaves the family as it is. */
  lemma FlatEmitPassThrough<Id>(ts: set<ItService<Id>>, values: Option<set<Id>>, attr: Attribute)
    ensures IsEmpty(values) ==> FlatEmit(ts, values, attr) == ts
  {
    if IsEmpty(values) {
      forall t | t in ts ensures t in FlatEmit(ts, values, attr) {
        assert t in EmitWithAttributeValues(values, attr, t);
      }
    }
  }

  /** Every output of a stage is one of its input templates with only the attribute changed. */
  lemma FlatEmitOrigin<Id>(ts: set<ItService<Id>>, values: Option<set<Id>>, attr: Attribute)
    ensures forall p :: p in FlatEmit(ts, values, attr) ==> exists t :: t in ts && p.Put(attr, t.Get(attr)) == t
  {
    forall p | p in FlatEmit(ts, values, attr) ensures exists t :: t in ts && p.Put(attr, t.Get(attr)) == t {
      var t :| t in ts && p in EmitWithAttributeValues(values, attr, t);
    }
  }

  /** Every template appears with every value of the collection. */
  lemma FlatEmitCoverage<Id>(ts: set<ItService<Id>>, values: Option<set<Id>>, attr: Attribute)
    ensures forall t, v :: t in ts && v in Values(values) ==> t.Put(attr, Some(v)) in FlatEmit(ts, values, attr)
  {
    forall t, v | t in ts && v in Values(values) ensures t.Put(attr, Some(v)) in FlatEmit(ts, values, attr) {
      assert t.Put(attr, Some(v)) in EmitWithAttributeValues(values, attr, t);
    }
  }

  /**
    The match patterns for the criteria: starting from a blank service, fan
    out over the managers, then over the subdivisions. `ids` takes no part.
  */
  function BuildMatchPatterns<Id(==)>(c: SearchCriteria<Id>): (r: set<ItService<Id>>)
    ensures forall p :: p in r ==> p.id == None
    ensures forall p :: p in r ==> Fits(p.manager, c.managers) && Fits(p.subdivision, c.subdivisions)
  {
    var byManager := FlatEmit({Blank()}, c.managers, Manager);
    assert forall t :: t in byManager ==> t.id == None && t.subdivision == None && Fits(t.manager, c.managers) by {
      forall t | t in byManager
        ensures t.id == None && t.subdivision == None && Fits(t.manager, c.managers)
      {
        assert t.Put(Manager, None) == Blank();
      }
    }
    var r := FlatEmit(byManager, c.subdivisions, Subdivision);
    assert forall p :: p in r ==> p.id == None && Fits(p.manager, c.managers) && Fits(p.subdivision, c.subdivisions) by {
      forall p | p in r
        ensures p.id == None && Fits(p.manager, c.managers) && Fits(p.subdivision, c.subdivisions)
      {
        var t :| t in byManager && p in EmitWithAttributeValues(c.subdivisions, Subdivision, t);
        assert p.Put(Subdivision, None) == t;
      }
    }
    r
  }

  /**
    A template attribute fits a collection when it is unset and the collection
    is null or empty, or it is set to one of the collection's values.
  */
  predicate Fits<Id>(o: Option<Id>, values: Option<set<Id>>)
  {
    if IsEmpty(values) then o == None else o.Some? && o.value in Values(values)
  }

  /**
    Every combination appears: the patterns are exactly the services with no
    id whose manager fits `managers` and whose subdivision fits `subdivisions`.
  */
  lemma {:induction false} MatchPatternsExactly<Id>(c: SearchCriteria<Id>, p: ItService<Id>)
    ensures p in BuildMatchPatterns(c) <==> p.id == None && Fits(p.manager, c.managers) && Fits(p.subdivision, c.subdivisions)
  {
    if p.id == None && Fits(p.manager, c.managers) && Fits(p.subdivision, c.subdivisions) {
      var t := ItService(None, p.manager, None);
      var emitted := EmitWithAttributeValues(c.managers, Manager, Blank());
      if IsEmpty(c.managers) {
        assert t == Blank();
      } else {
        assert t == Blank<Id>().Put(Manager, Some(p.manager.value));
      }
      assert t in emitted;
      assert t in FlatEmit({Blank()}, c.managers, Manager);
      var next := EmitWithAttributeValues(c.subdivisions, Subdivision, t);
      if IsEmpty(c.subdivisions) {
        assert p == t;
      } else {
        assert p == t.Put(Subdivision, Some(p.subdivision.value));
      }
      assert p in next;
    }
  }

  /** One template fans out to as many templates as the collection is wide. */
  lemma {:induction false} EmitCardinality<Id>(values: Option<set<Id>>, attr: Attribute, t: ItService<Id>)
    ensures |EmitWithAttributeValues(values, attr, t)| == Width(values)
  {
    if !IsEmpty(values) {
      ImageCardinality(Values(values), attr, t);
    }
  }

  /** Setting one attribute to each of `vs` in turn gives `|vs|` distinct services. */
  lemma {:induction false} ImageCardinality<Id>(vs: set<Id>, attr: Attribute, t: ItService<Id>)
    ensures |set v | v in vs :: t.Put(attr, Some(v))| == |vs|
  {
    if vs != {} {
      var v :| v in vs;
      var rest := vs - {v};
      ImageCardinality(rest, attr, t);
      var image := set w | w in vs :: t.Put(attr, Some(w));
      var restImage := set w | w in rest :: t.Put(attr, Some(w));
      assert image == restImage + {t.Put(attr, Some(v))};
      assert t.Put(attr, Some(v)) !in restImage;
    }
  }

  /**
    Fanning out a family of templates over a collection, along an attribute
    none of them sets, multiplies its size by the collection's width.
  */
  lemma {:induction false} FlatEmitCardinality<Id>(ts: set<ItService<Id>>, values: Option<set<Id>>, attr: Attribute)
    requires forall t :: t in ts ==> t.Get(attr) == None
    ensures |FlatEmit(ts, values, attr)| == |ts| * Width(values)
  {
    if ts != {} {
      var t :| t in ts;
      var rest := ts - {t};
      FlatEmitCardinality(rest, values, attr);
      EmitCardinality(values, attr, t);
      FlatEmitSplit(ts, t, values, attr);
    }
  }

  /** Taking one template out of the family splits the fan-out into two disjoint parts. */
  lemma FlatEmitSplit<Id>(ts: set<ItService<Id>>, t: ItService<Id>, values: Option<set<Id>>, attr: Attribute)
    requires t in ts
    requires forall u :: u in ts ==> u.Get(attr) == None
    ensures |FlatEmit(ts, values, attr)| == |FlatEmit(ts - {t}, values, attr)| + |EmitWithAttributeValues(values, attr, t)|
  {
    FlatEmitRemove(ts, t, values, attr);
    FlatEmitDisjoint(ts, t, values, attr);
  }

  /** The fan-out of a family is the fan-out of the rest plus that of the removed template. */
  lemma FlatEmitRemove<Id>(ts: set<ItService<Id>>, t: ItService<Id>, values: Option<set<Id>>, attr: Attribute)
    requires t in ts
    ensures FlatEmit(ts, values, attr) == FlatEmit(ts - {t}, values, attr) + EmitWithAttributeValues(values, attr, t)
  {
  }

  /** Templates that leave `attr` unset have disjoint fan-outs: each emitted template gives back its source once `attr` is cleared. */
  lemma FlatEmitDisjoint<Id>(ts: set<ItService<Id>>, t: ItService<Id>, values: Option<set<Id>>, attr: Attribute)
    requires t in ts
    requires forall u :: u in ts ==> u.Get(attr) == None
    ensures FlatEmit(ts - {t}, values, attr) !! EmitWithAttributeValues(values, attr, t)
  {
  }

  /**
    The number of patterns is the product of the widths of managers and
    subdivisions, an empty collection contributing a factor of 1.
  */
  lemma MatchPatternCount<Id>(c: SearchCriteria<Id>)
    ensures |BuildMatchPatterns(c)| == Width(c.managers) * Width(c.subdivisions)
  {
    var byManager := FlatEmit({Blank()}, c.managers, Manager);
    FlatEmitCardinality({Blank()}, c.managers, Manager);
    forall t | t in byManager ensures t.Get(Subdivision) == None {
      var u :| u in {Blank()} && t in EmitWithAttributeValues(c.managers, Manager, u);
      assert t.Put(Manager, None) == Blank();
    }
    FlatEmitCardinality(byManager, c.subdivisions, Subdivision);
  }
}
