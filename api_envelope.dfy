/**
 * The message envelope of the `api` artifact: a message together with an
 * offset, built by the two `create` factories. The interface's default
 * `offset()` answers `None`; the factory given an offset overrides it. The
 * envelope records which of the two applies, and `Offset` answers for it.
 */
module ApiEnvelope {
  import opened MessageOffsets

  /** Whether an envelope keeps the interface's default `offset()` or overrides it. */
  datatype OffsetSlot = DefaultOffset | OwnOffset(offset: MessageOffset)

  datatype MessageEnvelope<M> = MessageEnvelope(message: M, offsetSlot: OffsetSlot)

  /** `offset()`: the overriding offset if there is one, otherwise the default `None`. */
  function Offset<M>(e: MessageEnvelope<M>): (o: MessageOffset)
    ensures e.offsetSlot.DefaultOffset? ==> o == None
    ensures e.offsetSlot.OwnOffset? ==> o == e.offsetSlot.offset
  {
    match e.offsetSlot
    case DefaultOffset => None
    case OwnOffset(o) => o
  }

  /** `create(message)`: an envelope whose `message()` is the message and whose `offset()` is the default. */
  function Create<M>(message: M): (e: MessageEnvelope<M>)
    ensures e.message == message
    ensures Offset(e) == None
  {
    MessageEnvelope(message, DefaultOffset)
  }

  /** `create(message, offset)`: an envelope answering both the message and the given offset. */
  function CreateWithOffset<M>(message: M, offset: MessageOffset): (e: MessageEnvelope<M>)
    ensures e.message == message
    ensures Offset(e) == offset
  {
    MessageEnvelope(message, OwnOffset(offset))
  }

  /**
   * The default `commit()` acknowledges nothing and changes nothing: the
   * envelope it leaves behind answers the same message and offset.
   */
  method Commit<M>(e: MessageEnvelope<M>) returns (after: MessageEnvelope<M>)
    ensures after == e
    ensures after.message == e.message && Offset(after) == Offset(e)
  {
    after := e;
  }

  /**
   * `create(m, None)` cannot be told apart from `create(m)` through `message()`
   * and `offset()`, although the two are different implementations (the second
   * relies on the default, the first overrides it with the same value).
   */
  lemma CreateWithNoneActsAsCreate<M>(m: M)
    ensures CreateWithOffset(m, None).message == Create(m).message
    ensures Offset(CreateWithOffset(m, None)) == Offset(Create(m))
    ensures CreateWithOffset(m, None) != Create(m)
  {
  }

  /** Envelopes from the two factories agree on `message()` and `offset()` exactly when built from the same message and offset. */
  lemma FactoriesAgreeExactly<M>(m1: M, m2: M, o: MessageOffset)
    ensures (Create(m1).message == CreateWithOffset(m2, o).message
             && Offset(Create(m1)) == Offset(CreateWithOffset(m2, o)))
            <==> m1 == m2 && o == None
  {
  }
}
