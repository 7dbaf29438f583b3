/**
 * The revision repository interface's constants and its classification of
 * sort keys: a sort order names either the revision number or some other,
 * "dynamic", property.
 */
module SortProperty {

  /** Prefix of a sort property that names a property of the revision entity. */
  const REVISION_PROPERTY_PREFIX: string := "revisionProperty."

  /** Prefix of a sort property that names a property of the audited entity. */
  const AUDITED_ENTITY_PROPERTY_PREFIX: string := "entityProperty."

  datatype SortProperty = REVISION_NUMBER | DYNAMIC_PROPERTY {
    /** The property name under which callers request this kind of sort. */
    function OutwardFacing(): (s: string)
      ensures REVISION_NUMBER? <==> s == "revisionNumber"
      ensures DYNAMIC_PROPERTY? <==> s == ""
    {
      match this
      case REVISION_NUMBER => "revisionNumber"
      case DYNAMIC_PROPERTY => ""
    }
  }

  /** The enum constants in declaration order. */
  function Values(): (vs: seq<SortProperty>) {
    [REVISION_NUMBER, DYNAMIC_PROPERTY]
  }

  /**
   * Classifies the property of a sort order: the first constant whose outward
   * name equals the property (compared case-sensitively), and the dynamic
   * property when none does. It never fails.
   */
  method From(property: string) returns (ret: SortProperty)
    ensures ret == REVISION_NUMBER <==> property == "revisionNumber"
    ensures ret == DYNAMIC_PROPERTY <==> property != "revisionNumber"
  {
    ret := DYNAMIC_PROPERTY;
    var values := Values();
    var i := 0;
    while i < |values|
      invariant 0 <= i <= |values| && values == Values()
      invariant ret == DYNAMIC_PROPERTY
      invariant forall k :: 0 <= k < i ==> values[k].OutwardFacing() != property
    {
      if values[i].OutwardFacing() == property {
        ret := values[i];
        break;
      }
      i := i + 1;
    }
    assert values[0].OutwardFacing() == "revisionNumber";
  }
}
