/**
 * The revision query engine: the last change revision of an entity, one given
 * revision, its whole history in ascending order and one page of that history,
 * all computed from what the audit store reports.
 */
module EnversRevisionRepositoryImpl {
  import opened Wrappers
  import opened DefaultMetadata
  import opened History
  import opened AuditStore
  import SP = SortProperty

  // ---------------------------------------------------------------------------
  // Sort orders to ordering clauses
  // ---------------------------------------------------------------------------

  /** Lower-cases the ASCII letters of a character and leaves every other one as it is. */
  function LowerChar(c: char): (l: char) {
    if 'A' <= c <= 'Z' then (c as int + 32) as char else c
  }

  function Lower(s: string): (l: string)
    ensures |l| == |s|
    ensures forall i :: 0 <= i < |s| ==> l[i] == LowerChar(s[i])
  {
    seq(|s|, i requires 0 <= i < |s| => LowerChar(s[i]))
  }

  /** Whether `str` begins with `prefix` when letter case is ignored. */
  predicate StartsWithIgnoreCase(str: string, prefix: string) {
    |prefix| <= |str| && Lower(str[..|prefix|]) == Lower(prefix)
  }

  /**
   * The ordering clause one sort order contributes, if any: the revision number
   * for "revisionNumber"; otherwise, for a non-empty property, a revision-entity
   * property after a case-insensitive "revisionProperty." prefix (tried first) or
   * an audited-entity property after a case-insensitive "entityProperty." prefix.
   */
  function ClauseFor(order: SortOrder): (c: Option<OrderClause>) {
    var prop := order.property;
    if prop == SP.SortProperty.REVISION_NUMBER.OutwardFacing() then
      Some(OrderClause(RevisionNumberProperty, order.ascending))
    else if prop == "" then
      None
    else if StartsWithIgnoreCase(prop, SP.REVISION_PROPERTY_PREFIX) then
      Some(OrderClause(RevisionEntityProperty(prop[|SP.REVISION_PROPERTY_PREFIX|..]), order.ascending))
    else if StartsWithIgnoreCase(prop, SP.AUDITED_ENTITY_PROPERTY_PREFIX) then
      Some(OrderClause(EntityProperty(prop[|SP.AUDITED_ENTITY_PROPERTY_PREFIX|..]), order.ascending))
    else
      None
  }

  function OptionToSeq<X>(o: Option<X>): (s: seq<X>) {
    if o.Some? then [o.value] else []
  }

  /** The clauses a sequence of sort orders contributes, in the orders' sequence. */
  function ClausesFor(orders: seq<SortOrder>): (cs: seq<OrderClause>) {
    if orders == [] then []
    else ClausesFor(orders[..|orders| - 1]) + OptionToSeq(ClauseFor(orders[|orders| - 1]))
  }

  /**
   * The property one sort order orders by, if any: the switch on the order's
   * sort-property kind inside the loop of `AddSort`. Its ensures ties it to
   * `ClauseFor`, whose meaning `ClauseForSound`, `RevisionPropertyOrder` and
   * `EntityPropertyOrder` state.
   */
  method AuditPropertyFor(order: SortOrder) returns (auditProperty: Option<AuditProperty>)
    ensures ClauseFor(order) == if auditProperty.Some? then Some(OrderClause(auditProperty.value, order.ascending)) else None
  {
    auditProperty := None;
    var kind := SP.From(order.property);
    match kind {
      case REVISION_NUMBER =>
        auditProperty := Some(RevisionNumberProperty);
      case DYNAMIC_PROPERTY =>
        var prop := order.property;
        if prop != "" {
          if StartsWithIgnoreCase(prop, SP.REVISION_PROPERTY_PREFIX) {
            auditProperty := Some(RevisionEntityProperty(prop[|SP.REVISION_PROPERTY_PREFIX|..]));
          } else if StartsWithIgnoreCase(prop, SP.AUDITED_ENTITY_PROPERTY_PREFIX) {
            auditProperty := Some(EntityProperty(prop[|SP.AUDITED_ENTITY_PROPERTY_PREFIX|..]));
          }
        }
    }
  }

  /**
   * Appends to the audit query one ordering clause per sort order of the page
   * request that names the revision number or a prefixed property, in the
   * orders' sequence, and returns the same query. A null query, a null page
   * request or a request without a sort leaves the query unchanged.
   */
  method AddSort<Id>(auditQuery: AuditQuery?<Id>, pageable: Option<Pageable>) returns (r: AuditQuery?<Id>)
    modifies auditQuery
    ensures r == auditQuery
    ensures auditQuery != null ==>
      auditQuery.orders == old(auditQuery.orders) +
        (if pageable.Some? && pageable.value.sort.Some? then ClausesFor(pageable.value.sort.value) else [])
  {
    if auditQuery != null && pageable.Some? {
      var sort := pageable.value.sort;
      if sort.Some? {
        var orders := sort.value;
        var i := 0;
        while i < |orders|
          invariant 0 <= i <= |orders|
          invariant auditQuery.orders == old(auditQuery.orders) + ClausesFor(orders[..i])
        {
          var order := orders[i];
          var auditProperty := AuditPropertyFor(order);
          if auditProperty.Some? {
            auditQuery.AddOrder(OrderClause(auditProperty.value, order.ascending));
          }
          assert orders[..i + 1][..i] == orders[..i];
          assert ClausesFor(orders[..i + 1]) == ClausesFor(orders[..i]) + OptionToSeq(ClauseFor(order));
          i := i + 1;
        }
        assert orders[..|orders|] == orders;
      }
    }
    return auditQuery;
  }

  /** Each sort order contributes at most one clause. */
  lemma {:induction false} ClausesForAtMostOnePerOrder(orders: seq<SortOrder>)
    ensures |ClausesFor(orders)| <= |orders|
  {
    if orders != [] {
      ClausesForAtMostOnePerOrder(orders[..|orders| - 1]);
    }
  }

  /** The orders are walked in sequence: the clauses of a concatenation are the concatenated clauses. */
  lemma {:induction false} ClausesForAppend(a: seq<SortOrder>, b: seq<SortOrder>)
    ensures ClausesFor(a + b) == ClausesFor(a) + ClausesFor(b)
  {
    if b == [] {
      assert a + b == a;
    } else {
      assert (a + b)[..|a + b| - 1] == a + b[..|b| - 1];
      assert (a + b)[|a + b| - 1] == b[|b| - 1];
      ClausesForAppend(a, b[..|b| - 1]);
    }
  }

  /** "revisionProperty." in any letter case, then a name: a clause on that revision-entity property. */
  lemma RevisionPropertyOrder(prefix: string, name: string, ascending: bool)
    requires Lower(prefix) == Lower(SP.REVISION_PROPERTY_PREFIX)
    ensures ClauseFor(SortOrder(prefix + name, ascending)) == Some(OrderClause(RevisionEntityProperty(name), ascending))
  {
  }

  /** "entityProperty." in any letter case, then a name: a clause on that audited-entity property. */
  lemma EntityPropertyOrder(prefix: string, name: string, ascending: bool)
    requires Lower(prefix) == Lower(SP.AUDITED_ENTITY_PROPERTY_PREFIX)
    ensures ClauseFor(SortOrder(prefix + name, ascending)) == Some(OrderClause(EntityProperty(name), ascending))
  {
    var prop := prefix + name;
    assert |prefix| == |SP.AUDITED_ENTITY_PROPERTY_PREFIX|;
    assert prop[..|prefix|] == prefix;
    assert prop[|prefix|..] == name;
    assert Lower(prefix)[0] == 'e';
    assert prop != "revisionNumber" by {
      assert LowerChar(prop[0]) == 'e';
    }
    assert !StartsWithIgnoreCase(prop, SP.REVISION_PROPERTY_PREFIX) by {
      if |SP.REVISION_PROPERTY_PREFIX| <= |prop| {
        assert Lower(prop[..|SP.REVISION_PROPERTY_PREFIX|])[0] == LowerChar(prop[0]) == 'e';
        assert Lower(SP.REVISION_PROPERTY_PREFIX)[0] == 'r';
      }
    }
  }

  /**
   * What a clause says about the order it came from: the same direction, and
   * the property "revisionNumber" exactly, or one of the two prefixes (checked
   * in that sequence, case-insensitively) followed by the clause's property
   * name. An order matching none of these, the empty one included,
   * contributes nothing.
   */
  lemma ClauseForSound(order: SortOrder)
    ensures ClauseFor(order).Some? ==> ClauseFor(order).value.ascending == order.ascending
    ensures ClauseFor(order) == Some(OrderClause(RevisionNumberProperty, order.ascending)) <==> order.property == "revisionNumber"
    ensures forall name :: ClauseFor(order) == Some(OrderClause(RevisionEntityProperty(name), order.ascending)) ==>
      StartsWithIgnoreCase(order.property, SP.REVISION_PROPERTY_PREFIX) &&
      order.property == order.property[..|SP.REVISION_PROPERTY_PREFIX|] + name
    ensures forall name :: ClauseFor(order) == Some(OrderClause(EntityProperty(name), order.ascending)) ==>
      !StartsWithIgnoreCase(order.property, SP.REVISION_PROPERTY_PREFIX) &&
      StartsWithIgnoreCase(order.property, SP.AUDITED_ENTITY_PROPERTY_PREFIX) &&
      order.property == order.property[..|SP.AUDITED_ENTITY_PROPERTY_PREFIX|] + name
    ensures ClauseFor(order).None? <==>
      order.property != "revisionNumber" &&
      !StartsWithIgnoreCase(order.property, SP.REVISION_PROPERTY_PREFIX) &&
      !StartsWithIgnoreCase(order.property, SP.AUDITED_ENTITY_PROPERTY_PREFIX)
  {
  }

  // ---------------------------------------------------------------------------
  // Revision metadata and single revisions
  // ---------------------------------------------------------------------------

  /**
   * The metadata wrapper for a marker object: the built-in adapter for Envers'
   * default revision entity and the annotation-based reading for every other
   * object, a null one included.
   */
  function GetRevisionMetadata(revisionEntity: Option<Marker>): (md: RevisionMetadata)
    ensures md.DefaultRevision? <==> revisionEntity.Some? && revisionEntity.value.DefaultMarker?
    ensures md.GetDelegate() == revisionEntity
    ensures revisionEntity.Some? ==> md.GetRevisionNumber() == MarkerNumber(revisionEntity.value)
  {
    if revisionEntity.Some? && revisionEntity.value.DefaultMarker? then
      var created := Create(Some(revisionEntity.value.entity));
      DefaultRevision(created.value)
    else
      AnnotationRevision(revisionEntity)
  }

  /**
   * The revision of an entity at one revision number: the store's snapshot
   * (null when it has none) with the metadata of that number's marker.
   */
  function GetEntityForRevision<Id(==,!new), T>(store: Store<Id, T>, revisionNumber: int, id: Id): (r: Revision<T>)
    ensures r.entity == store.Find(id, revisionNumber)
    ensures r.metadata.GetDelegate() == store.FindRevision(revisionNumber)
    ensures store.HasMarker(revisionNumber) ==> r.HasNumber() && r.Number() == revisionNumber
  {
    Revision(GetRevisionMetadata(store.FindRevision(revisionNumber)), store.Find(id, revisionNumber))
  }

  /**
   * The revision of an entity with a given revision number. A null id or a
   * null revision number is rejected before the store is consulted.
   */
  function FindRevision<Id(==,!new), T>(store: Store<Id, T>, id: Option<Id>, revisionNumber: Option<int>): (r: Result<Revision<T>, Error>)
    ensures id.None? ==> r == Failure(IllegalArgument("Identifier must not be null!"))
    ensures id.Some? && revisionNumber.None? ==> r == Failure(IllegalArgument("Revision number must not be null!"))
    ensures r.Success? <==> id.Some? && revisionNumber.Some?
    ensures r.Success? ==>
      r.value.entity == store.Find(id.value, revisionNumber.value) &&
      r.value.metadata.GetDelegate() == store.FindRevision(revisionNumber.value)
    ensures r.Success? && store.HasMarker(revisionNumber.value) ==>
      r.value.HasNumber() && r.value.Number() == revisionNumber.value
  {
    if id.None? then Failure(IllegalArgument("Identifier must not be null!"))
    else if revisionNumber.None? then Failure(IllegalArgument("Revision number must not be null!"))
    else Success(GetEntityForRevision(store, revisionNumber.value, id.value))
  }

  /**
   * The revision of the entity's last change: null when the store lists no
   * revision for the id, otherwise the revision at the last listed number.
   */
  function FindLastChangeRevision<Id(==,!new), T>(store: Store<Id, T>, id: Id): (r: Option<Revision<T>>)
    ensures r.None? <==> store.GetRevisions(id) == []
    ensures r.Some? ==>
      var ns := store.GetRevisions(id);
      r.value.entity == store.Find(id, ns[|ns| - 1]) &&
      r.value.metadata.GetDelegate() == store.FindRevision(ns[|ns| - 1])
  {
    var revisions := store.GetRevisions(id);
    if revisions == [] then None
    else
      var latestRevision := revisions[|revisions| - 1];
      Some(GetEntityForRevision(store, latestRevision, id))
  }

  /** With an ascending revision list, the last change revision carries the greatest listed number. */
  lemma LastChangeIsNewest<Id(!new), T>(store: Store<Id, T>, id: Id)
    requires store.Ascending() && store.MarkersCover(store.GetRevisions(id))
    requires store.GetRevisions(id) != []
    ensures FindLastChangeRevision(store, id).Some?
    ensures FindLastChangeRevision(store, id).value.HasNumber()
    ensures FindLastChangeRevision(store, id).value.Number() in store.GetRevisions(id)
    ensures forall n :: n in store.GetRevisions(id) ==> n <= FindLastChangeRevision(store, id).value.Number()
  {
  }

  // ---------------------------------------------------------------------------
  // Assembling revisions from a list of revision numbers
  // ---------------------------------------------------------------------------

  /** Exchanges two neighbouring revisions of the array. */
  method SwapAdjacent<T>(a: array<Revision<T>>, j: int)
    requires 0 < j < a.Length
    requires AllNumbered(a[..]) && DistinctNumbers(a[..])
    modifies a
    ensures a[j - 1] == old(a[j]) && a[j] == old(a[j - 1])
    ensures forall m :: 0 <= m < a.Length && m != j - 1 && m != j ==> a[m] == old(a[m])
    ensures AllNumbered(a[..]) && DistinctNumbers(a[..])
    ensures multiset(a[..]) == multiset(old(a[..]))
  {
    ghost var before := a[..];
    a[j - 1], a[j] := a[j], a[j - 1];
    SwappedKeepsNumbers(before, a[..], j);
  }

  /** Exchanging two neighbouring revisions keeps every number and the multiset of revisions. */
  lemma SwappedKeepsNumbers<T>(before: seq<Revision<T>>, after: seq<Revision<T>>, j: int)
    requires 0 < j < |before| == |after|
    requires AllNumbered(before) && DistinctNumbers(before)
    requires after[j - 1] == before[j] && after[j] == before[j - 1]
    requires forall m :: 0 <= m < |after| && m != j - 1 && m != j ==> after[m] == before[m]
    ensures AllNumbered(after) && DistinctNumbers(after)
    ensures multiset(after) == multiset(before)
  {
    SwappedNumbered(before, after, j);
    var left, right := before[..j - 1], before[j + 1..];
    assert after == left + [before[j], before[j - 1]] + right;
    assert before == left + [before[j - 1], before[j]] + right;
  }

  lemma SwappedNumbered<T>(before: seq<Revision<T>>, after: seq<Revision<T>>, j: int)
    requires 0 < j < |before| == |after|
    requires AllNumbered(before) && DistinctNumbers(before)
    requires after[j - 1] == before[j] && after[j] == before[j - 1]
    requires forall m :: 0 <= m < |after| && m != j - 1 && m != j ==> after[m] == before[m]
    ensures AllNumbered(after) && DistinctNumbers(after)
  {
  }

  /** The first `n` revisions have strictly rising numbers. */
  ghost predicate AscendingPrefix<T>(s: seq<Revision<T>>, n: int)
    requires AllNumbered(s) && 0 <= n <= |s|
  {
    forall k, l :: 0 <= k < l < n ==> s[k].Number() < s[l].Number()
  }

  /**
   * Moves the revision at index `i` leftwards past every greater-numbered one,
   * so that a strictly ascending prefix of length `i` becomes one of length `i + 1`.
   */
  method InsertAt<T>(a: array<Revision<T>>, i: int)
    requires 0 <= i < a.Length
    requires AllNumbered(a[..]) && DistinctNumbers(a[..]) && AscendingPrefix(a[..], i)
    modifies a
    ensures AllNumbered(a[..]) && DistinctNumbers(a[..]) && AscendingPrefix(a[..], i + 1)
    ensures multiset(a[..]) == multiset(old(a[..]))
    ensures forall m :: i < m < a.Length ==> a[m] == old(a[m])
  {
    var j := i;
    while j > 0 && a[j - 1].Number() > a[j].Number()
      invariant 0 <= j <= i
      invariant AllNumbered(a[..]) && DistinctNumbers(a[..])
      invariant multiset(a[..]) == multiset(old(a[..]))
      invariant forall m :: i < m < a.Length ==> a[m] == old(a[m])
      invariant forall k, l :: 0 <= k < l <= i && k != j && l != j ==> a[k].Number() < a[l].Number()
      invariant forall l :: j < l <= i ==> a[j].Number() < a[l].Number()
    {
      SwapAdjacent(a, j);
      j := j - 1;
    }
    assert j > 0 ==> a[j - 1].Number() != a[j].Number();
  }

  /**
   * Sorts revisions in place, ascending by revision number (the natural order
   * of revisions). The numbers are distinct, so the order is strict.
   */
  method SortRevisions<T>(a: array<Revision<T>>)
    requires AllNumbered(a[..]) && DistinctNumbers(a[..])
    modifies a
    ensures StrictlyAscending(a[..])
    ensures multiset(a[..]) == multiset(old(a[..]))
  {
    var i := 0;
    while i < a.Length
      invariant 0 <= i <= a.Length
      invariant AllNumbered(a[..]) && DistinctNumbers(a[..]) && AscendingPrefix(a[..], i)
      invariant multiset(a[..]) == multiset(old(a[..]))
    {
      InsertAt(a, i);
      i := i + 1;
    }
  }

  /** Java's `Map.get`: the value under a key, or null. */
  function MapGet<K, V>(m: map<K, V>, k: K): (v: Option<V>)
    ensures v.Some? <==> k in m
    ensures v.Some? ==> v.value == m[k]
  {
    if k in m then Some(m[k]) else None
  }

  /** Some element of a non-empty set; which one is left open, as a hash map's iteration order is. */
  method PickOne(s: set<int>) returns (x: int)
    requires s != {}
    ensures x in s
  {
    assert (forall y :: y !in s) ==> s == {};
    x :| x in s;
  }

  lemma NumbersOfAppend<T>(rs: seq<Revision<T>>, r: Revision<T>)
    requires AllNumbered(rs) && r.HasNumber()
    ensures AllNumbered(rs + [r]) && NumbersOf(rs + [r]) == NumbersOf(rs) + {r.Number()}
  {
    var t := rs + [r];
    assert t[|rs|] == r;
    assert forall i :: 0 <= i < |rs| ==> t[i] == rs[i];
  }

  /** Lists with the same elements carry the same revision numbers. */
  lemma SameElementsSameNumbers<T>(s: seq<Revision<T>>, t: seq<Revision<T>>)
    requires multiset(s) == multiset(t) && AllNumbered(s)
    ensures AllNumbered(t) && NumbersOf(s) == NumbersOf(t)
  {
    forall i | 0 <= i < |t|
      ensures t[i] in s
    {
      assert t[i] in multiset(t);
    }
    forall n | n in NumbersOf(s)
      ensures n in NumbersOf(t)
    {
      var i :| 0 <= i < |s| && s[i].Number() == n;
      assert s[i] in multiset(s);
      var j :| 0 <= j < |t| && t[j] == s[i];
    }
  }

  /**
   * The loop of `ToRevisions`: one revision per entry of the map, visited in
   * no particular order.
   */
  method CollectRevisions<T>(source: map<int, Option<T>>, revisionEntities: map<int, Marker>) returns (list: seq<Revision<T>>)
    requires forall n :: n in source ==> n in revisionEntities && MarkerNumber(revisionEntities[n]) == Some(n)
    ensures AllNumbered(list) && DistinctNumbers(list)
    ensures NumbersOf(list) == source.Keys
    ensures forall i :: 0 <= i < |list| ==>
      list[i] == Revision(GetRevisionMetadata(MapGet(revisionEntities, list[i].Number())), source[list[i].Number()])
  {
    list := [];
    var remaining := source.Keys;
    while remaining != {}
      invariant remaining <= source.Keys
      invariant AllNumbered(list) && DistinctNumbers(list)
      invariant forall i :: 0 <= i < |list| ==>
        list[i].Number() in source && list[i].Number() !in remaining &&
        list[i] == Revision(GetRevisionMetadata(MapGet(revisionEntities, list[i].Number())), source[list[i].Number()])
      invariant NumbersOf(list) + remaining == source.Keys
      decreases remaining
    {
      var revisionNumber := PickOne(remaining);
      var metadata := GetRevisionMetadata(MapGet(revisionEntities, revisionNumber));
      var revision := Revision(metadata, source[revisionNumber]);
      assert revision.Number() == revisionNumber;
      NumbersOfAppend(list, revision);
      list := list + [revision];
      remaining := remaining - {revisionNumber};
    }
  }

  /**
   * Builds one revision per entry of the number-to-snapshot map, with the
   * metadata of that number's marker, and returns them sorted ascending by
   * revision number as an unmodifiable list. The entries are visited in no
   * particular order.
   */
  method ToRevisions<T>(source: map<int, Option<T>>, revisionEntities: map<int, Marker>) returns (result: seq<Revision<T>>)
    requires forall n :: n in source ==> n in revisionEntities && MarkerNumber(revisionEntities[n]) == Some(n)
    ensures StrictlyAscending(result)
    ensures NumbersOf(result) == source.Keys
    ensures forall i :: 0 <= i < |result| ==>
      result[i] == Revision(GetRevisionMetadata(MapGet(revisionEntities, result[i].Number())), source[result[i].Number()])
  {
    var list := CollectRevisions(source, revisionEntities);
    var a := new Revision<T>[|list|](i requires 0 <= i < |list| => list[i]);
    assert a[..] == list;
    SortRevisions(a);
    result := a[..];
    SameElementsSameNumbers(list, result);
    forall i | 0 <= i < |result|
      ensures result[i] in list
    {
      assert result[i] in multiset(result);
    }
  }

  /** The distinct numbers of a list of revision numbers. */
  ghost function Distinct(ns: seq<int>): (d: set<int>) {
    set n | n in ns
  }

  /**
   * `rs` is what assembling the revision numbers `ns` of `id` yields: one
   * revision per distinct number, sorted strictly ascending by number, each
   * with the store's snapshot and the metadata of its marker.
   */
  ghost predicate AssembledFrom<Id(!new), T>(store: Store<Id, T>, id: Id, ns: seq<int>, rs: seq<Revision<T>>) {
    StrictlyAscending(rs) &&
    NumbersOf(rs) == Distinct(ns) &&
    forall i :: 0 <= i < |rs| ==> rs[i] == GetEntityForRevision(store, rs[i].Number(), id)
  }

  /**
   * The revisions of `id` at the given revision numbers: the snapshots are
   * collected into a map keyed by number, which collapses repeated numbers,
   * and the markers of all numbers are fetched in one request.
   */
  method GetEntitiesForRevisions<Id(==,!new), T>(store: Store<Id, T>, revisionNumbers: seq<int>, id: Id) returns (revisions: Revisions<T>)
    requires store.MarkersCover(revisionNumbers)
    ensures AssembledFrom(store, id, revisionNumbers, revisions.content)
  {
    var snapshots: map<int, Option<T>> := map[];
    var revisionEntities := store.FindRevisions(set n | n in revisionNumbers);
    var i := 0;
    while i < |revisionNumbers|
      invariant 0 <= i <= |revisionNumbers|
      invariant snapshots.Keys == Distinct(revisionNumbers[..i])
      invariant forall n :: n in snapshots ==> snapshots[n] == store.Find(id, n)
    {
      var number := revisionNumbers[i];
      snapshots := snapshots[number := store.Find(id, number)];
      assert revisionNumbers[..i + 1] == revisionNumbers[..i] + [number];
      i := i + 1;
    }
    assert revisionNumbers[..i] == revisionNumbers;
    forall n | n in snapshots
      ensures n in revisionEntities && MarkerNumber(revisionEntities[n]) == Some(n)
    {
      var k :| 0 <= k < |revisionNumbers| && revisionNumbers[k] == n;
      assert store.HasMarker(revisionNumbers[k]);
    }
    var content := ToRevisions(snapshots, revisionEntities);
    forall k | 0 <= k < |content|
      ensures content[k] == GetEntityForRevision(store, content[k].Number(), id)
    {
      var n := content[k].Number();
      assert MapGet(revisionEntities, n) == store.FindRevision(n);
    }
    revisions := Revisions(content);
  }

  /** A list with no revisions carries no numbers, and conversely. */
  lemma NoNumbersNoRevisions<T>(rs: seq<Revision<T>>)
    requires AllNumbered(rs)
    ensures NumbersOf(rs) == {} <==> rs == []
  {
    if rs != [] {
      assert rs[0].Number() in NumbersOf(rs);
    }
  }

  // ---------------------------------------------------------------------------
  // Whole history and pages of it
  // ---------------------------------------------------------------------------

  /**
   * The whole history of `id`: an empty collection when the store lists no
   * revision for it, otherwise the assembled revisions of every listed number.
   */
  method FindRevisions<Id(==,!new), T>(store: Store<Id, T>, id: Id) returns (revisions: Revisions<T>)
    requires store.MarkersCover(store.GetRevisions(id))
    ensures store.GetRevisions(id) == [] <==> revisions.content == []
    ensures AssembledFrom(store, id, store.GetRevisions(id), revisions.content)
  {
    var revisionNumbers := store.GetRevisions(id);
    if revisionNumbers == [] {
      revisions := Revisions([]);
      assert NumbersOf(revisions.content) == {};
    } else {
      revisions := GetEntitiesForRevisions(store, revisionNumbers, id);
      assert revisionNumbers[0] in Distinct(revisionNumbers);
      NoNumbersNoRevisions(revisions.content);
    }
  }

  /** The ordering clauses a page request asks for. */
  function SortClauses(pageable: Pageable): (cs: seq<OrderClause>) {
    if pageable.sort.Some? then ClausesFor(pageable.sort.value) else []
  }

  /**
   * The audit query a page request runs: `id`'s revision numbers, from the
   * page's offset, at most the page size of them, under the requested ordering
   * clauses. Which numbers that selects is up to the store (see `Store.Valid`).
   */
  function PageQuery<Id>(id: Id, pageable: Pageable): (q: QuerySpec<Id>) {
    QuerySpec(id, pageable.offset, pageable.pageSize, SortClauses(pageable))
  }

  /**
   * One page of the history of `id`. An offset beyond the number of listed
   * revisions gives an empty page reporting a total of 0; otherwise the store
   * runs the page's query and its revision numbers are assembled (and so
   * sorted ascending whatever order was requested), with the number of listed
   * revisions as the total.
   */
  method FindRevisionsPage<Id(==,!new), T>(store: Store<Id, T>, id: Id, pageable: Pageable) returns (page: Page<Revision<T>>)
    requires store.Valid()
    ensures page.pageable == pageable
    ensures pageable.offset > |store.GetRevisions(id)| ==> page.content == [] && page.total == 0
    ensures pageable.offset <= |store.GetRevisions(id)| ==>
      page.total == |store.GetRevisions(id)| &&
      AssembledFrom(store, id, store.query(PageQuery(id, pageable)), page.content)
    ensures |page.content| <= pageable.pageSize
  {
    var revisionNumbers := store.GetRevisions(id);
    var totalNumberOfRevisions := |revisionNumbers|;
    if pageable.offset > totalNumberOfRevisions {
      return Page([], pageable, 0);
    }
    var auditQuery := new AuditQuery(id, pageable.offset, pageable.pageSize);
    var sorted := AddSort(auditQuery, Some(pageable));
    var spec := sorted.Spec();
    assert spec == PageQuery(id, pageable);
    var results := store.query(spec);
    forall k | 0 <= k < |results|
      ensures store.HasMarker(results[k])
    {
      assert results[k] in store.GetRevisions(id);
      assert id in store.revs;
      var j :| 0 <= j < |store.revs[id]| && store.revs[id][j] == results[k];
      assert store.MarkersCover(store.revs[id]);
    }
    var revisions := GetEntitiesForRevisions(store, results, id);
    AssembledCount(store, id, results, revisions.content);
    assert |results| <= spec.maxResults;
    page := Page(revisions.content, pageable, |revisionNumbers|);
  }

  /** A set of distinct list elements is no larger than the list. */
  lemma {:induction false} DistinctAtMostLength(ns: seq<int>)
    ensures |Distinct(ns)| <= |ns|
  {
    if ns != [] {
      DistinctAtMostLength(ns[1..]);
      assert Distinct(ns) == {ns[0]} + Distinct(ns[1..]);
    }
  }

  /** Strictly ascending revisions carry as many numbers as there are revisions. */
  lemma {:induction false} AscendingNumbersCount<T>(rs: seq<Revision<T>>)
    requires StrictlyAscending(rs)
    ensures |NumbersOf(rs)| == |rs|
  {
    if rs != [] {
      var tail := rs[1..];
      assert StrictlyAscending(tail);
      AscendingNumbersCount(tail);
      assert NumbersOf(rs) == {rs[0].Number()} + NumbersOf(tail);
      assert rs[0].Number() !in NumbersOf(tail);
    }
  }

  /** Assembly yields exactly one revision per distinct number, so never more than it was given numbers. */
  lemma AssembledCount<Id(!new), T>(store: Store<Id, T>, id: Id, ns: seq<int>, rs: seq<Revision<T>>)
    requires AssembledFrom(store, id, ns, rs)
    ensures |rs| == |Distinct(ns)| <= |ns|
  {
    AscendingNumbersCount(rs);
    DistinctAtMostLength(ns);
  }

  lemma NumbersOfTail<T>(rs: seq<Revision<T>>)
    requires StrictlyAscending(rs) && rs != []
    ensures StrictlyAscending(rs[1..])
    ensures NumbersOf(rs[1..]) == NumbersOf(rs) - {rs[0].Number()}
  {
  }

  /** The smallest number of a strictly ascending list is its first. */
  lemma FirstIsLeast<T>(rs: seq<Revision<T>>, n: int)
    requires StrictlyAscending(rs) && n in NumbersOf(rs)
    ensures rs != [] && rs[0].Number() <= n
  {
  }

  /** Strictly ascending lists that carry the same numbers carry them at the same positions. */
  lemma {:induction false} AscendingSameNumbers<T>(r1: seq<Revision<T>>, r2: seq<Revision<T>>)
    requires StrictlyAscending(r1) && StrictlyAscending(r2) && NumbersOf(r1) == NumbersOf(r2)
    ensures |r1| == |r2|
    ensures forall i :: 0 <= i < |r1| ==> r1[i].Number() == r2[i].Number()
  {
    AscendingNumbersCount(r1);
    AscendingNumbersCount(r2);
    if r1 != [] {
      assert r1[0].Number() in NumbersOf(r1);
      assert r2[0].Number() in NumbersOf(r2);
      FirstIsLeast(r2, r1[0].Number());
      FirstIsLeast(r1, r2[0].Number());
      NumbersOfTail(r1);
      NumbersOfTail(r2);
      AscendingSameNumbers(r1[1..], r2[1..]);
      forall i | 1 <= i < |r1|
        ensures r1[i].Number() == r2[i].Number()
      {
        assert r1[1..][i - 1] == r1[i] && r2[1..][i - 1] == r2[i];
      }
    }
  }

  /**
   * Assembly is determined by its input: whatever order the snapshot map is
   * visited in, any two assemblies of the same numbers are the same list.
   */
  lemma AssembledUnique<Id(!new), T>(store: Store<Id, T>, id: Id, ns: seq<int>, r1: seq<Revision<T>>, r2: seq<Revision<T>>)
    requires AssembledFrom(store, id, ns, r1) && AssembledFrom(store, id, ns, r2)
    ensures r1 == r2
  {
    AscendingSameNumbers(r1, r2);
  }

  /**
   * With an ascending revision list, the last revision of the whole history is
   * the last change revision.
   */
  lemma LatestOfHistory<Id(!new), T>(store: Store<Id, T>, id: Id, rs: seq<Revision<T>>)
    requires store.Ascending() && store.GetRevisions(id) != []
    requires AssembledFrom(store, id, store.GetRevisions(id), rs)
    ensures rs != [] && FindLastChangeRevision(store, id) == Some(rs[|rs| - 1])
  {
    var ns := store.GetRevisions(id);
    var last := ns[|ns| - 1];
    assert last in Distinct(ns);
    var k :| 0 <= k < |rs| && rs[k].Number() == last;
    var top := rs[|rs| - 1].Number();
    assert top in Distinct(ns);
    var j :| 0 <= j < |ns| && ns[j] == top;
    assert id in store.revs;
    assert last <= top by {
      if k < |rs| - 1 { assert rs[k].Number() < rs[|rs| - 1].Number(); }
    }
  }

  /** A list of revision numbers in strictly ascending order. */
  ghost predicate NumbersAscending(ns: seq<int>) {
    forall i, j :: 0 <= i < j < |ns| ==> ns[i] < ns[j]
  }

  /** The first number of a strictly ascending list is not among the rest, which hold all its other numbers. */
  lemma AscendingDistinctTail(ns: seq<int>)
    requires NumbersAscending(ns) && ns != []
    ensures NumbersAscending(ns[1..])
    ensures ns[0] !in Distinct(ns[1..])
    ensures Distinct(ns) == {ns[0]} + Distinct(ns[1..])
  {
  }

  /** A strictly ascending list holds as many distinct numbers as elements. */
  lemma {:induction false} AscendingDistinctCount(ns: seq<int>)
    requires NumbersAscending(ns)
    ensures |Distinct(ns)| == |ns|
  {
    if ns != [] {
      AscendingDistinctTail(ns);
      AscendingDistinctCount(ns[1..]);
    }
  }

  /**
   * Strictly ascending revisions whose numbers are those of a strictly
   * ascending list carry exactly that list's numbers, position by position.
   */
  lemma {:induction false} AscendingMatchesNumbers<T>(rs: seq<Revision<T>>, ns: seq<int>)
    requires StrictlyAscending(rs) && NumbersAscending(ns) && NumbersOf(rs) == Distinct(ns)
    ensures |rs| == |ns|
    ensures forall i :: 0 <= i < |rs| ==> rs[i].Number() == ns[i]
  {
    AscendingNumbersCount(rs);
    AscendingDistinctCount(ns);
    if rs != [] {
      AscendingDistinctTail(ns);
      var first := rs[0].Number();
      assert first in NumbersOf(rs);
      var k :| 0 <= k < |ns| && ns[k] == first;
      assert ns[0] in Distinct(ns);
      FirstIsLeast(rs, ns[0]);
      assert k == 0;
      NumbersOfTail(rs);
      var tail := ns[1..];
      assert Distinct(tail) == Distinct(ns) - {ns[0]};
      AscendingMatchesNumbers(rs[1..], tail);
      forall i | 1 <= i < |rs|
        ensures rs[i].Number() == ns[i]
      {
        assert rs[1..][i - 1] == rs[i] && tail[i - 1] == ns[i];
      }
    }
  }

  /** The window offset and size select counted from the end of `ns`, in the list's own order. */
  function Mirrored(ns: seq<int>, offset: nat, size: nat): (w: seq<int>)
    ensures |w| <= size
  {
    var lo := if offset < |ns| then offset else |ns|;
    var hi := if offset + size < |ns| then offset + size else |ns|;
    ns[|ns| - hi..|ns| - lo]
  }

  /** The window of the reversed list, reversed back, is the mirrored slice of the list. */
  lemma ReversedWindow(ns: seq<int>, offset: nat, size: nat)
    ensures Mirrored(ns, offset, size) == Reverse(Window(Reverse(ns), offset, size))
  {
  }

  /** Reversing a list keeps its set of numbers. */
  lemma DistinctReverse(v: seq<int>)
    ensures Distinct(Reverse(v)) == Distinct(v)
  {
    forall x | x in Distinct(v)
      ensures x in Distinct(Reverse(v))
    {
      var t :| 0 <= t < |v| && v[t] == x;
      assert Reverse(v)[|v| - 1 - t] == x;
    }
  }

  /**
   * The revision numbers a page ordered by revision number shows, ascending:
   * the window its offset and size select from the ascending list, or, for a
   * descending request, the same window counted from the end of the list.
   */
  function PageNumbers(ns: seq<int>, offset: nat, size: nat, ascending: bool): (w: seq<int>)
    ensures |w| <= size
    ensures ascending ==> w == Window(ns, offset, size)
    ensures !ascending ==> w == Reverse(Window(Reverse(ns), offset, size))
    ensures !ascending ==> Distinct(w) == Distinct(Window(Reverse(ns), offset, size))
  {
    if ascending then Window(ns, offset, size)
    else
      ReversedWindow(ns, offset, size);
      DistinctReverse(Window(Reverse(ns), offset, size));
      Mirrored(ns, offset, size)
  }

  /** A page request sorted by "revisionNumber" alone runs a query with that one clause. */
  lemma SortByRevisionNumber(offset: nat, pageSize: nat, ascending: bool)
    ensures SortClauses(Pageable(offset, pageSize, Some([SortOrder("revisionNumber", ascending)]))) ==
      [OrderClause(RevisionNumberProperty, ascending)]
  {
    var order := SortOrder("revisionNumber", ascending);
    assert [order][..0] == [];
    assert ClausesFor([order]) == ClausesFor([]) + OptionToSeq(ClauseFor(order));
  }

  /** The revisions of `id` at the numbers `ns`, in that order. */
  function RevisionsAt<Id(==,!new), T>(store: Store<Id, T>, id: Id, ns: seq<int>): (rs: seq<Revision<T>>)
    ensures |rs| == |ns|
    ensures forall i :: 0 <= i < |ns| ==> rs[i] == GetEntityForRevision(store, ns[i], id)
  {
    seq(|ns|, i requires 0 <= i < |ns| => GetEntityForRevision(store, ns[i], id))
  }

  /**
   * A page whose sort yields the one revision-number clause (`SortByRevisionNumber`
   * gives the plain case), ascending or descending, holds the revisions at
   * `PageNumbers`: the window of the history that its offset and size select,
   * listed ascending.
   */
  lemma RevisionNumberPage<Id(!new), T>(store: Store<Id, T>, id: Id, pageable: Pageable, ascending: bool, content: seq<Revision<T>>)
    requires store.Valid() && store.Ascending()
    requires SortClauses(pageable) == [OrderClause(RevisionNumberProperty, ascending)]
    requires AssembledFrom(store, id, store.query(PageQuery(id, pageable)), content)
    ensures var w := PageNumbers(store.GetRevisions(id), pageable.offset, pageable.pageSize, ascending);
      |content| == |w| &&
      forall i :: 0 <= i < |content| ==> content[i] == GetEntityForRevision(store, w[i], id)
    ensures content == RevisionsAt(store, id, PageNumbers(store.GetRevisions(id), pageable.offset, pageable.pageSize, ascending))
  {
    var ns := store.GetRevisions(id);
    var q := PageQuery(id, pageable);
    assert store.query(q) == Window(InDirection(ns, ascending), pageable.offset, pageable.pageSize);
    var w := PageNumbers(ns, pageable.offset, pageable.pageSize, ascending);
    assert NumbersAscending(w) by {
      assert id !in store.revs ==> ns == [];
      assert NumbersAscending(ns);
    }
    AscendingMatchesNumbers(content, w);
  }

  /** The `n`-th page request (from 0) of `size` revisions, sorted by "revisionNumber" in one direction. */
  function NthPage(n: nat, size: nat, ascending: bool): (p: Pageable)
    ensures p.offset == n * size && p.pageSize == size
  {
    Pageable(n * size, size, Some([SortOrder("revisionNumber", ascending)]))
  }

  /** How many numbers `k` pages of `size` span: `k * size`, counted page by page. */
  function Covered(k: nat, size: nat): (c: nat)
  {
    if k == 0 then 0 else Covered(k - 1, size) + size
  }

  lemma {:induction false} CoveredIsProduct(k: nat, size: nat)
    ensures Covered(k, size) == k * size
  {
    if k > 0 {
      CoveredIsProduct(k - 1, size);
      assert k * size == (k - 1) * size + size;
    }
  }

  /** The numbers on the first `k` ascending pages of `size`, in page order. */
  function Pages(ns: seq<int>, k: nat, size: nat): (ps: seq<int>)
  {
    if k == 0 then [] else Pages(ns, k - 1, size) + Window(ns, Covered(k - 1, size), size)
  }

  /** The numbers on the first `k` descending pages of `size`, the last-fetched page first. */
  function DescPages(ns: seq<int>, k: nat, size: nat): (ps: seq<int>)
  {
    if k == 0 then [] else Mirrored(ns, Covered(k - 1, size), size) + DescPages(ns, k - 1, size)
  }

  /**
   * Ascending pages follow on from each other without gap or overlap: the
   * first `k` of them are the oldest `k * size` numbers of the list, and so
   * the whole list once they reach its end.
   */
  lemma {:induction false} PagesArePrefix(ns: seq<int>, k: nat, size: nat)
    ensures Pages(ns, k, size) == ns[..if Covered(k, size) < |ns| then Covered(k, size) else |ns|]
  {
    if k > 0 {
      PagesArePrefix(ns, k - 1, size);
      var offset := Covered(k - 1, size);
      var lo := if offset < |ns| then offset else |ns|;
      var hi := if offset + size < |ns| then offset + size else |ns|;
      assert Window(ns, offset, size) == ns[lo..hi];
      assert ns[..lo] + ns[lo..hi] == ns[..hi];
    }
  }

  /**
   * Descending pages follow on from each other without gap or overlap, from
   * the newest block back: the first `k` of them, taken last page first, are
   * the newest `k * size` numbers of the list in ascending order, each page
   * listed ascending rather than in the requested direction.
   */
  lemma {:induction false} DescPagesAreSuffix(ns: seq<int>, k: nat, size: nat)
    ensures DescPages(ns, k, size) == ns[|ns| - (if Covered(k, size) < |ns| then Covered(k, size) else |ns|)..]
  {
    if k > 0 {
      DescPagesAreSuffix(ns, k - 1, size);
      var offset := Covered(k - 1, size);
      var lo := if offset < |ns| then offset else |ns|;
      var hi := if offset + size < |ns| then offset + size else |ns|;
      assert Mirrored(ns, offset, size) == ns[|ns| - hi..|ns| - lo];
      SliceJoin(ns, |ns| - hi, |ns| - lo);
    }
  }

  lemma SliceJoin(ns: seq<int>, a: int, b: int)
    requires 0 <= a <= b <= |ns|
    ensures ns[a..b] + ns[b..] == ns[a..]
  {
  }

  /** Pages that reach the end of the list hold the whole list, in either direction. */
  lemma PagesCoverAll(ns: seq<int>, k: nat, size: nat)
    requires Covered(k, size) >= |ns|
    ensures Pages(ns, k, size) == ns
    ensures DescPages(ns, k, size) == ns
  {
    PagesArePrefix(ns, k, size);
    DescPagesAreSuffix(ns, k, size);
    assert ns[..|ns|] == ns && ns[0..] == ns;
  }

  /** The pages' contents one after the other. */
  function Concat<X>(pages: seq<seq<X>>): (s: seq<X>)
  {
    if pages == [] then [] else Concat(pages[..|pages| - 1]) + pages[|pages| - 1]
  }

  /** The pages' contents one after the other, the last page first. */
  function ConcatBackward<X>(pages: seq<seq<X>>): (s: seq<X>)
  {
    if pages == [] then [] else pages[|pages| - 1] + ConcatBackward(pages[..|pages| - 1])
  }

  lemma RevisionsAtAppend<Id(!new), T>(store: Store<Id, T>, id: Id, a: seq<int>, b: seq<int>)
    ensures RevisionsAt(store, id, a + b) == RevisionsAt(store, id, a) + RevisionsAt(store, id, b)
  {
  }

  /** The `n`-th revision-number page of `size` holds the revisions at its `PageNumbers`. */
  lemma PageContent<Id(!new), T>(store: Store<Id, T>, id: Id, size: nat, ascending: bool, n: nat, content: seq<Revision<T>>)
    requires store.Valid() && store.Ascending()
    requires AssembledFrom(store, id, store.query(PageQuery(id, NthPage(n, size, ascending))), content)
    ensures content == RevisionsAt(store, id, PageNumbers(store.GetRevisions(id), n * size, size, ascending))
  {
    var p := NthPage(n, size, ascending);
    SortByRevisionNumber(p.offset, size, ascending);
    RevisionNumberPage(store, id, p, ascending, content);
  }

  /** Pages each holding the revisions at their ascending page numbers hold, together, those at `Pages`. */
  lemma {:induction false} ConcatPages<Id(!new), T>(store: Store<Id, T>, id: Id, ns: seq<int>, size: nat, contents: seq<seq<Revision<T>>>)
    requires forall j :: 0 <= j < |contents| ==> contents[j] == RevisionsAt(store, id, Window(ns, Covered(j, size), size))
    ensures Concat(contents) == RevisionsAt(store, id, Pages(ns, |contents|, size))
  {
    if contents != [] {
      var k := |contents|;
      var init := contents[..k - 1];
      forall j | 0 <= j < |init|
        ensures init[j] == RevisionsAt(store, id, Window(ns, Covered(j, size), size))
      {
        assert init[j] == contents[j];
      }
      ConcatPages(store, id, ns, size, init);
      var last := Window(ns, Covered(k - 1, size), size);
      assert Concat(contents) == Concat(init) + contents[k - 1];
      assert contents[k - 1] == RevisionsAt(store, id, last);
      assert Pages(ns, k, size) == Pages(ns, k - 1, size) + last;
      RevisionsAtAppend(store, id, Pages(ns, k - 1, size), last);
    }
  }

  /** Pages each holding the revisions at their descending page numbers hold, read last page first, those at `DescPages`. */
  lemma {:induction false} ConcatBackwardPages<Id(!new), T>(store: Store<Id, T>, id: Id, ns: seq<int>, size: nat, contents: seq<seq<Revision<T>>>)
    requires forall j :: 0 <= j < |contents| ==> contents[j] == RevisionsAt(store, id, Mirrored(ns, Covered(j, size), size))
    ensures ConcatBackward(contents) == RevisionsAt(store, id, DescPages(ns, |contents|, size))
  {
    if contents != [] {
      var k := |contents|;
      var init := contents[..k - 1];
      forall j | 0 <= j < |init|
        ensures init[j] == RevisionsAt(store, id, Mirrored(ns, Covered(j, size), size))
      {
        assert init[j] == contents[j];
      }
      ConcatBackwardPages(store, id, ns, size, init);
      var last := Mirrored(ns, Covered(k - 1, size), size);
      assert ConcatBackward(contents) == contents[k - 1] + ConcatBackward(init);
      assert contents[k - 1] == RevisionsAt(store, id, last);
      assert DescPages(ns, k, size) == last + DescPages(ns, k - 1, size);
      RevisionsAtAppend(store, id, last, DescPages(ns, k - 1, size));
    }
  }

  /**
   * The contents of consecutive revision-number pages 0, 1, ... of one size
   * hold the revisions at `Pages` (ascending) or `DescPages` (descending, read
   * last page first).
   */
  lemma PagedContents<Id(!new), T>(store: Store<Id, T>, id: Id, size: nat, ascending: bool, contents: seq<seq<Revision<T>>>)
    requires store.Valid() && store.Ascending()
    requires forall j :: 0 <= j < |contents| ==>
      AssembledFrom(store, id, store.query(PageQuery(id, NthPage(j, size, ascending))), contents[j])
    ensures ascending ==> Concat(contents) == RevisionsAt(store, id, Pages(store.GetRevisions(id), |contents|, size))
    ensures !ascending ==> ConcatBackward(contents) == RevisionsAt(store, id, DescPages(store.GetRevisions(id), |contents|, size))
  {
    var ns := store.GetRevisions(id);
    forall j | 0 <= j < |contents|
      ensures contents[j] == RevisionsAt(store, id, if ascending then Window(ns, Covered(j, size), size) else Mirrored(ns, Covered(j, size), size))
    {
      PageContent(store, id, size, ascending, j, contents[j]);
      CoveredIsProduct(j, size);
    }
    if ascending {
      ConcatPages(store, id, ns, size, contents);
    } else {
      ConcatBackwardPages(store, id, ns, size, contents);
    }
  }

  /**
   * Paging through the history in ascending revision-number order with a
   * fixed page size until the pages reach its end gives every revision of the
   * whole history exactly once, in order and without gaps.
   */
  lemma PagingAscendingIsHistory<Id(!new), T>(store: Store<Id, T>, id: Id, size: nat,
                                              contents: seq<seq<Revision<T>>>, history: seq<Revision<T>>)
    requires store.Valid() && store.Ascending()
    requires forall j :: 0 <= j < |contents| ==>
      AssembledFrom(store, id, store.query(PageQuery(id, NthPage(j, size, true))), contents[j])
    requires |contents| * size >= |store.GetRevisions(id)|
    requires AssembledFrom(store, id, store.GetRevisions(id), history)
    ensures Concat(contents) == history
  {
    var ns := store.GetRevisions(id);
    PagedContents(store, id, size, true, contents);
    AssembledHistory(store, id, history);
    CoveredIsProduct(|contents|, size);
    PagesCoverAll(ns, |contents|, size);
  }

  /**
   * Paging through the history in descending revision-number order with a
   * fixed page size until the pages reach its end also gives every revision
   * exactly once: read last page first, the pages make up the whole history
   * in ascending order, because each page comes back ascending.
   */
  lemma PagingDescendingIsHistory<Id(!new), T>(store: Store<Id, T>, id: Id, size: nat,
                                               contents: seq<seq<Revision<T>>>, history: seq<Revision<T>>)
    requires store.Valid() && store.Ascending()
    requires forall j :: 0 <= j < |contents| ==>
      AssembledFrom(store, id, store.query(PageQuery(id, NthPage(j, size, false))), contents[j])
    requires |contents| * size >= |store.GetRevisions(id)|
    requires AssembledFrom(store, id, store.GetRevisions(id), history)
    ensures ConcatBackward(contents) == history
  {
    var ns := store.GetRevisions(id);
    PagedContents(store, id, size, false, contents);
    AssembledHistory(store, id, history);
    CoveredIsProduct(|contents|, size);
    PagesCoverAll(ns, |contents|, size);
  }

  /** With an ascending list, the assembled history holds the revisions at the listed numbers, in order. */
  lemma AssembledHistory<Id(!new), T>(store: Store<Id, T>, id: Id, history: seq<Revision<T>>)
    requires store.Ascending()
    requires AssembledFrom(store, id, store.GetRevisions(id), history)
    ensures history == RevisionsAt(store, id, store.GetRevisions(id))
  {
    var ns := store.GetRevisions(id);
    assert NumbersAscending(ns) by {
      assert id !in store.revs ==> ns == [];
    }
    AscendingMatchesNumbers(history, ns);
  }

  /** Three revisions 1, 2 and 3, two to a page. */
  lemma PagesOfThree()
    ensures PageNumbers([1, 2, 3], 0, 2, true) == [1, 2]
    ensures PageNumbers([1, 2, 3], 2, 2, true) == [3]
    ensures PageNumbers([1, 2, 3], 0, 2, false) == [2, 3]
    ensures PageNumbers([1, 2, 3], 2, 2, false) == [1]
    ensures PageNumbers([1, 2, 3], 3, 2, true) == []
  {
  }
}
