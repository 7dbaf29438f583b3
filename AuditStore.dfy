/**
 * An abstract, immutable audit-log store standing in for the Envers audit
 * reader: the revision numbers listed for each entity id, the entity snapshot
 * at each (id, revision number) and the revision marker of each revision
 * number. Running an audit query is left to the store (`query`); the store's
 * well-formedness says what the repository relies on about the results.
 */
module AuditStore {
  import opened Wrappers
  import opened History

  /** What an ordering clause of an audit query sorts by. */
  datatype AuditProperty =
    | RevisionNumberProperty
    | RevisionEntityProperty(name: string)
    | EntityProperty(name: string)

  /** One ordering clause: ascending or descending on a property. */
  datatype OrderClause = OrderClause(property: AuditProperty, ascending: bool)

  /**
   * The value of an audit query over the revisions of one entity that projects
   * each revision row to its revision number.
   */
  datatype QuerySpec<Id> = QuerySpec(id: Id, firstResult: nat, maxResults: nat, orders: seq<OrderClause>)

  /** A mutable audit query builder; `AddOrder` appends an ordering clause in place. */
  class AuditQuery<Id> {
    const id: Id
    const firstResult: nat
    const maxResults: nat
    var orders: seq<OrderClause>

    constructor (id: Id, firstResult: nat, maxResults: nat)
      ensures this.id == id && this.firstResult == firstResult && this.maxResults == maxResults
      ensures orders == []
    {
      this.id := id;
      this.firstResult := firstResult;
      this.maxResults := maxResults;
      orders := [];
    }

    /** The query this builder currently describes. */
    function Spec(): (q: QuerySpec<Id>)
      reads this
    {
      QuerySpec(id, firstResult, maxResults, orders)
    }

    method AddOrder(clause: OrderClause)
      modifies this
      ensures orders == old(orders) + [clause]
    {
      orders := orders + [clause];
    }
  }

  /**
   * The part of `s` an offset and a row limit select, as SQL's OFFSET and
   * LIMIT do (Hibernate's `setFirstResult` and `setMaxResults`): from index
   * `offset` on, at most `size` elements, nothing when the offset is past the end.
   */
  function Window(s: seq<int>, offset: nat, size: nat): (w: seq<int>)
    ensures |w| <= size
    ensures offset >= |s| ==> w == []
  {
    var lo := if offset < |s| then offset else |s|;
    var hi := if offset + size < |s| then offset + size else |s|;
    s[lo..hi]
  }

  /** The elements of `s` back to front. */
  function Reverse(s: seq<int>): (r: seq<int>)
    ensures |r| == |s|
    ensures forall i :: 0 <= i < |s| ==> r[i] == s[|s| - 1 - i]
  {
    seq(|s|, i requires 0 <= i < |s| => s[|s| - 1 - i])
  }

  /** A revision list in ascending or in descending order, given that it is ascending. */
  function InDirection(s: seq<int>, ascending: bool): (r: seq<int>) {
    if ascending then s else Reverse(s)
  }

  datatype Store<!Id(==,!new), T> = Store(
    revs: map<Id, seq<int>>,
    snap: map<(Id, int), T>,
    markers: map<int, Marker>,
    query: QuerySpec<Id> -> seq<int>)
  {
    /** The revision numbers recorded for an id; none for an id never audited. */
    function GetRevisions(id: Id): (ns: seq<int>)
      ensures id !in revs ==> ns == []
    {
      if id in revs then revs[id] else []
    }

    /** The snapshot of an id at a revision, or null when the store has none. */
    function Find(id: Id, n: int): (e: Option<T>)
      ensures e.Some? <==> (id, n) in snap
    {
      if (id, n) in snap then Some(snap[(id, n)]) else None
    }

    /** The revision marker of a revision number, or null when there is none. */
    function FindRevision(n: int): (m: Option<Marker>)
      ensures m.Some? <==> n in markers
    {
      if n in markers then Some(markers[n]) else None
    }

    /** The markers of a set of revision numbers, keyed by number; numbers without a marker are left out. */
    function FindRevisions(ns: set<int>): (m: map<int, Marker>)
      ensures m.Keys == ns * markers.Keys
      ensures forall n :: n in m ==> m[n] == markers[n]
    {
      map n | n in ns && n in markers :: markers[n]
    }

    /** The revision number has a marker, and that marker records the same number. */
    ghost predicate HasMarker(n: int) {
      n in markers && MarkerNumber(markers[n]) == Some(n)
    }

    /** Every listed revision number has a consistent marker. */
    ghost predicate MarkersCover(ns: seq<int>) {
      forall i :: 0 <= i < |ns| ==> HasMarker(ns[i])
    }

    /** Each id's revision list rises strictly, as Envers reports it. */
    ghost predicate Ascending() {
      forall id, i, j :: id in revs && 0 <= i < j < |revs[id]| ==> revs[id][i] < revs[id][j]
    }

    /**
     * What the repository relies on: every revision the store lists has a
     * consistent marker, and a query returns at most `maxResults` revision
     * numbers, each one listed for the queried id. A query ordered by the
     * revision number alone returns the window of the id's revision list, in
     * the requested direction, that its first result and row limit select;
     * what other orderings select is left to the store.
     */
    ghost predicate Valid() {
      (forall id :: id in revs ==> MarkersCover(revs[id])) &&
      (forall q: QuerySpec<Id> :: |q.orders| == 1 && q.orders[0].property.RevisionNumberProperty? ==>
        query(q) == Window(InDirection(GetRevisions(q.id), q.orders[0].ascending), q.firstResult, q.maxResults)) &&
      (forall q: QuerySpec<Id> :: |query(q)| <= q.maxResults) &&
      (forall q: QuerySpec<Id>, i :: 0 <= i < |query(q)| ==> query(q)[i] in GetRevisions(q.id))
    }
  }
}
