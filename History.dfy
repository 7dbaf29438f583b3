/**
 * Minimal value types for what the revision repository consumes and produces:
 * revision markers as the audit store reports them, revision metadata,
 * revisions, revision collections, sort orders, page requests and pages.
 */
module History {
  import opened Wrappers
  import opened DefaultMetadata

  /**
   * A revision marker as the audit store returns it: either Envers' built-in
   * revision entity, or an entity of a user class whose revision number and
   * timestamp fields are found through annotations (their values are given
   * here directly, absent when the field holds null).
   */
  datatype Marker =
    | DefaultMarker(entity: DefaultRevisionEntity)
    | CustomMarker(number: Option<int>, timestamp: Option<int>)

  /** The revision number a marker records, read the way annotation lookup reads it. */
  function MarkerNumber(m: Marker): (n: Option<int>) {
    match m
    case DefaultMarker(e) => Some(e.id)
    case CustomMarker(n, _) => n
  }

  /**
   * Uniform revision metadata: the adapter for the built-in entity, or the
   * annotation-based reading of any other object (possibly null).
   */
  datatype RevisionMetadata =
    | DefaultRevision(adapter: DefaultRevisionMetadata)
    | AnnotationRevision(delegate: Option<Marker>)
  {
    function GetRevisionNumber(): (n: Option<int>) {
      match this
      case DefaultRevision(a) => Some(a.GetRevisionNumber())
      case AnnotationRevision(d) => if d.Some? then MarkerNumber(d.value) else None
    }

    function GetRevisionDate(): (d: Option<Instant>) {
      match this
      case DefaultRevision(a) => Some(a.GetRevisionDate())
      case AnnotationRevision(d) =>
        if d.Some? && d.value.CustomMarker? && d.value.timestamp.Some? then Some(Instant(d.value.timestamp.value))
        else if d.Some? && d.value.DefaultMarker? then Some(Instant(d.value.entity.timestamp))
        else None
    }

    function GetDelegate(): (m: Option<Marker>) {
      match this
      case DefaultRevision(a) => Some(DefaultMarker(a.GetDelegate()))
      case AnnotationRevision(d) => d
    }
  }

  /** An entity snapshot (null for a missing one) paired with the metadata of its revision. */
  datatype Revision<T> = Revision(metadata: RevisionMetadata, entity: Option<T>) {
    predicate HasNumber() {
      metadata.GetRevisionNumber().Some?
    }

    /** The revision number, the key by which revisions are ordered. */
    function Number(): (n: int)
      requires HasNumber()
    {
      metadata.GetRevisionNumber().value
    }
  }

  /** An immutable list of revisions. */
  datatype Revisions<T> = Revisions(content: seq<Revision<T>>)

  /** One sort order requested by a caller: a property name and a direction. */
  datatype SortOrder = SortOrder(property: string, ascending: bool)

  /** A page request: the zero-based offset of its first element, its size and an optional sort. */
  datatype Pageable = Pageable(offset: nat, pageSize: nat, sort: Option<seq<SortOrder>>)

  /** One page of results with the request it answers and the total it reports. */
  datatype Page<T> = Page(content: seq<T>, pageable: Pageable, total: nat)

  /** Every revision carries a number, and the numbers rise strictly from left to right. */
  ghost predicate StrictlyAscending<T>(rs: seq<Revision<T>>) {
    AllNumbered(rs) &&
    (forall i, j :: 0 <= i < j < |rs| ==> rs[i].Number() < rs[j].Number())
  }

  /** The set of revision numbers in a list of numbered revisions. */
  ghost function NumbersOf<T>(rs: seq<Revision<T>>): (ns: set<int>)
    requires AllNumbered(rs)
  {
    set i | 0 <= i < |rs| :: rs[i].Number()
  }

  /** Every revision carries a number. */
  ghost predicate AllNumbered<T>(rs: seq<Revision<T>>) {
    forall i :: 0 <= i < |rs| ==> rs[i].HasNumber()
  }

  /** No two revisions carry the same number. */
  ghost predicate DistinctNumbers<T>(rs: seq<Revision<T>>)
    requires AllNumbered(rs)
  {
    forall i, j :: 0 <= i < j < |rs| ==> rs[i].Number() != rs[j].Number()
  }
}
