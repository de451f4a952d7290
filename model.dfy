/**
  The values the IT-service filtering engine works on: IT services (which
  double as match patterns) and search criteria. Identifiers are opaque: every
  member is generic in their type `Id`, so nothing depends on how they are
  represented (UUIDs in the original).
*/
module ItServices {

  /** A Java reference that may be null. */
  datatype Option<T> = None | Some(value: T)

  /** The attributes of an IT service that its builder can set. */
  datatype Attribute = ServiceId | Manager | Subdivision

  /**
    An IT service. Every attribute may be unset (null): a freshly built
    service has none set, and a match pattern leaves the attributes it does
    not constrain unset.
  */
  datatype ItService<Id> = ItService(id: Option<Id>, manager: Option<Id>, subdivision: Option<Id>)
  {
    /** The getter of attribute `a`. */
    function Get(a: Attribute): Option<Id>
    {
      match a
      case ServiceId => id
      case Manager => manager
      case Subdivision => subdivision
    }

    /** A copy with attribute `a` replaced by `o`, as `toBuilder()`, the setter and `build()` make it. */
    function Put(a: Attribute, o: Option<Id>): (r: ItService<Id>)
      ensures r.Get(a) == o
      ensures forall b :: b != a ==> r.Get(b) == Get(b)
    {
      match a
      case ServiceId => this.(id := o)
      case Manager => this.(manager := o)
      case Subdivision => this.(subdivision := o)
    }
  }

  /** `new ItServiceDto()`: a service with no attribute set. */
  function Blank<Id>(): (t: ItService<Id>)
    ensures forall a :: t.Get(a) == None
  {
    ItService(None, None, None)
  }

  /**
    A search request: the service ids the caller already knows, the accepted
    managers and the accepted subdivisions. Each collection may be null.
  */
  datatype SearchCriteria<Id> = SearchCriteria(ids: Option<set<Id>>, managers: Option<set<Id>>, subdivisions: Option<set<Id>>)

  /** The elements of a nullable collection; null reads as the empty collection. */
  function Values<Id>(o: Option<set<Id>>): set<Id>
  {
    match o
    case None => {}
    case Some(s) => s
  }

  /** `CollectionUtils.isEmpty`: true of null and of an empty collection. */
  predicate IsEmpty<Id>(o: Option<set<Id>>)
  {
    Values(o) == {}
  }

  /** The criteria with every null collection replaced by an empty one. */
  function Normalize<Id>(c: SearchCriteria<Id>): (n: SearchCriteria<Id>)
    ensures n.ids.Some? && n.managers.Some? && n.subdivisions.Some?
    ensures Values(n.ids) == Values(c.ids)
    ensures Values(n.managers) == Values(c.managers)
    ensures Values(n.subdivisions) == Values(c.subdivisions)
  {
    SearchCriteria(Some(Values(c.ids)), Some(Values(c.managers)), Some(Values(c.subdivisions)))
  }
}
