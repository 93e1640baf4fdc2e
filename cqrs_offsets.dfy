/**
 * The offset conversions of the CQRS example, between the messaging offsets
 * and the offsets of Akka persistence query (`Sequence`, `TimeBasedUUID`,
 * `NoOffset`). Any other Akka offset, and a UUID that is not time-based, is
 * rejected with an `IllegalArgumentException`, modelled as an error result.
 */
module CqrsOffsets {
  import opened JavaNumbers
  import opened Uuids
  import M = MessageOffsets

  /**
   * Akka persistence query's `Offset`. `Sequence` and `TimeBasedUUID` are case
   * classes and `NoOffset` a case object; `Other` stands for any further
   * subclass, known only by its `toString`.
   */
  datatype Offset =
    | Sequence(value: Long)
    | TimeBasedUUID(uuid: Uuid)
    | NoOffset
    | Other(description: string)

  /**
   * The offsets Akka lets exist: the `TimeBasedUUID` constructor rejects a
   * UUID whose version is not 1 (a time-based UUID).
   */
  predicate Constructible(offset: Offset) {
    offset.TimeBasedUUID? ==> Version(offset.uuid) == 1
  }

  /**
   * The `IllegalArgumentException`s of the conversions: an Akka offset of an
   * unknown kind ("Unknown offset type: " and its description), and a UUID
   * the `TimeBasedUUID` constructor refuses as not time-based.
   */
  datatype IllegalArgument = UnknownOffsetType(description: string) | NotTimeBased(uuid: Uuid)

  datatype Result<T> = Ok(value: T) | Failure(error: IllegalArgument)

  /**
   * `convertOffset`: the Akka offset of the same kind carrying the same
   * payload, or the constructor's refusal of a `TimeUuid` whose UUID is not
   * version 1.
   */
  function ConvertOffset(offset: M.MessageOffset): (r: Result<Offset>)
    ensures r.Failure? <==> offset.TimeUuid? && Version(offset.uuid) != 1
    ensures r.Failure? ==> r.error == NotTimeBased(offset.uuid)
    ensures r.Ok? ==> Constructible(r.value) && !r.value.Other?
    ensures r.Ok? ==> (offset.Sequence? <==> r.value.Sequence?)
    ensures r.Ok? ==> (offset.TimeUuid? <==> r.value.TimeBasedUUID?)
    ensures offset.Sequence? ==> r.Ok? && r.value.value == offset.value
    ensures offset.TimeUuid? && r.Ok? ==> r.value.uuid == offset.uuid
    ensures offset.None? ==> r == Ok(NoOffset)
  {
    match offset
    case Sequence(v) => Ok(Sequence(v))
    case TimeUuid(u) => if Version(u) == 1 then Ok(TimeBasedUUID(u)) else Failure(NotTimeBased(u))
    case None => Ok(NoOffset)
  }

  /**
   * `convertAkkaOffset`: the messaging offset of the same kind carrying the
   * same payload, or an `IllegalArgumentException` naming an unknown offset.
   */
  function ConvertAkkaOffset(offset: Offset): (r: Result<M.MessageOffset>)
    ensures r.Failure? <==> offset.Other?
    ensures offset.Other? ==> r.error == UnknownOffsetType(offset.description)
    ensures offset.Sequence? ==> r.Ok? && r.value.Sequence? && r.value.value == offset.value
    ensures offset.TimeBasedUUID? ==> r.Ok? && r.value.TimeUuid? && r.value.uuid == offset.uuid
    ensures offset.NoOffset? ==> r == Ok(M.None)
  {
    if offset.Sequence? then Ok(M.Sequence(offset.value))
    else if offset.TimeBasedUUID? then Ok(M.TimeUuid(offset.uuid))
    else if offset == NoOffset then Ok(M.None)
    else Failure(UnknownOffsetType(offset.description))
  }

  /**
   * A messaging offset that Akka can represent (a sequence, no offset, or a
   * version 1 UUID) survives the trip through Akka unchanged.
   */
  lemma MessagingRoundTrip(offset: M.MessageOffset)
    requires offset.TimeUuid? ==> Version(offset.uuid) == 1
    ensures ConvertOffset(offset).Ok?
    ensures ConvertAkkaOffset(ConvertOffset(offset).value) == Ok(offset)
  {
  }

  /** Each Akka offset of the three known kinds survives the trip through messaging unchanged. */
  lemma AkkaRoundTrip(offset: Offset)
    requires Constructible(offset) && !offset.Other?
    ensures ConvertAkkaOffset(offset).Ok?
    ensures ConvertOffset(ConvertAkkaOffset(offset).value) == Ok(offset)
  {
  }

  /** No randomly generated (version 4) UUID can be carried to Akka: `convertOffset` fails on each of them. */
  lemma RandomUuidIsRefused(u: Uuid)
    requires Version(u) == 4
    ensures ConvertOffset(M.TimeUuid(u)) == Failure(NotTimeBased(u))
  {
  }

  /** `convertOffset` identifies exactly the offsets that `equals` identifies, failures included. */
  lemma ConvertOffsetRespectsEquals(a: M.MessageOffset, b: M.MessageOffset)
    ensures ConvertOffset(a) == ConvertOffset(b) <==> M.Equals(a, b)
  {
  }
}
