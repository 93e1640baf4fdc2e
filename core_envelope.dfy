/**
 * The message envelope of the main artifact: the same interface as the `api`
 * copy with only the one-argument `create` factory, so every envelope it
 * builds keeps the default `offset()`.
 */
module CoreEnvelope {
  import opened MessageOffsets

  /** Whether an envelope keeps the interface's default `offset()` or overrides it. */
  datatype OffsetSlot = DefaultOffset | OwnOffset(offset: MessageOffset)

  datatype MessageEnvelope<M> = MessageEnvelope(message: M, offsetSlot: OffsetSlot)

  /** `offset()`: the overriding offset if there is one, otherwise the default `None`. */
  function Offset<M>(e: MessageEnvelope<M>): (o: MessageOffset)
    ensures e.offsetSlot.DefaultOffset? ==> o == None
    ensures e.offsetSlot.OwnOffset? ==> o == e.offsetSlot.offset
  {
    match e.offsetSlot
    case DefaultOffset => None
    case OwnOffset(o) => o
  }

  /** `create(message)`: an envelope whose `message()` is the message and whose `offset()` is the default. */
  function Create<M>(message: M): (e: MessageEnvelope<M>)
    ensures e.message == message
    ensures Offset(e) == None
  {
    MessageEnvelope(message, DefaultOffset)
  }

  /** The default `commit()` changes nothing about the envelope. */
  method Commit<M>(e: MessageEnvelope<M>) returns (after: MessageEnvelope<M>)
    ensures after == e
    ensures after.message == e.message && Offset(after) == Offset(e)
  {
    after := e;
  }

  /** `create` loses nothing: two envelopes it builds answer the same `message()` only if built from the same message. */
  lemma CreateIsInjective<M>(m1: M, m2: M)
    ensures Create(m1).message == Create(m2).message <==> m1 == m2
    ensures Offset(Create(m1)) == Offset(Create(m2))
  {
  }
}
