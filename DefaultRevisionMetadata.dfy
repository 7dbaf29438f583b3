/**
 * The revision metadata adapter for Envers' built-in revision entity.
 * The wrapped entity is a field of an immutable datatype value: it is fixed
 * when the value is built and no operation can change it.
 */
module DefaultMetadata {
  import opened Wrappers

  /** Envers' built-in revision entity: an integer id and a commit time in epoch milliseconds. */
  datatype DefaultRevisionEntity = DefaultRevisionEntity(id: int, timestamp: int)

  /** A point in time, kept as epoch milliseconds (no time zone is applied). */
  datatype Instant = Instant(epochMillis: int)

  /** The metadata adapter; its only state is the wrapped revision entity. */
  datatype DefaultRevisionMetadata = DefaultRevisionMetadata(entity: DefaultRevisionEntity) {

    /** The revision number is the entity's id. */
    function GetRevisionNumber(): (n: int)
      ensures n == entity.id
    {
      entity.id
    }

    /** The revision date is the instant of the entity's stored timestamp. */
    function GetRevisionDate(): (d: Instant)
      ensures d.epochMillis == entity.timestamp
    {
      Instant(entity.timestamp)
    }

    /** Gives back the wrapped entity itself. */
    function GetDelegate(): (e: DefaultRevisionEntity)
      ensures e == entity
    {
      entity
    }
  }

  /** The constructor: a null entity is rejected, any other one is wrapped as it is. */
  function Create(entity: Option<DefaultRevisionEntity>): (r: Result<DefaultRevisionMetadata, Error>)
    ensures r.Failure? <==> entity.None?
    ensures r.Success? ==> r.value.entity == entity.value
  {
    match entity
    case None => Failure(IllegalArgument("[Assertion failed] - this argument is required; it must not be null"))
    case Some(e) => Success(DefaultRevisionMetadata(e))
  }

  /** Building metadata from an entity and reading it back returns that entity's id, timestamp and the entity itself. */
  lemma CreateThenRead(e: DefaultRevisionEntity)
    ensures Create(Some(e)).Success?
    ensures Create(Some(e)).value.GetRevisionNumber() == e.id
    ensures Create(Some(e)).value.GetRevisionDate() == Instant(e.timestamp)
    ensures Create(Some(e)).value.GetDelegate() == e
  {
  }
}
