/**
 * The message offset: a position marker that is a long sequence number, a
 * time-based UUID, or the single "no offset" value. Equality and hashing are
 * those of the Java classes; the orderings are the ones their documentation
 * promises, each within its own variant only.
 */
module MessageOffsets {
  import opened JavaNumbers
  import Uuids

  /**
   * `Sequence` and `TimeUuid` are final classes over one immutable field each;
   * `None` is an enum with the one constant `INSTANCE`. The `value()` accessors
   * of the two classes are the destructors `value` and `uuid`.
   */
  datatype MessageOffset =
    | Sequence(value: Long)
    | TimeUuid(uuid: Uuids.Uuid)
    | None

  /**
   * `self.equals(other)`. Each class first rejects an object of another class
   * and then compares its field; the enum inherits identity equality, and its
   * only instance is `INSTANCE`.
   */
  predicate Equals(self: MessageOffset, other: MessageOffset) {
    match self
    case Sequence(v) => other.Sequence? && v == other.value
    case TimeUuid(u) => other.TimeUuid? && Uuids.Equals(u, other.uuid)
    case None => other.None?
  }

  /** `Sequence.hashCode()`: `(int) (value ^ (value >>> 32))`. */
  function SequenceHash(v: Long): (h: Int)
    ensures h == Signed32(Xor32(Low32(v), High32(v)))
  {
    Pow2Values();
    var folded := LongXor(v, UnsignedShiftRight32(v));
    LowBitsOfXor(Unsigned64(v), Unsigned64(UnsignedShiftRight32(v)), 64, 32);
    LowBitsOfSmall(Unsigned64(UnsignedShiftRight32(v)), 32);
    NarrowToInt(folded)
  }

  /**
   * `hashCode()`. `UUID.hashCode` is not part of this model and is a parameter,
   * and so is the identity hash code the enum constant inherits from `Object`.
   */
  function HashCode(o: MessageOffset, uuidHash: Uuids.Uuid -> Int, noneHash: Int): Int {
    match o
    case Sequence(v) => SequenceHash(v)
    case TimeUuid(u) => uuidHash(u)
    case None => noneHash
  }

  /**
   * Java's `equals` is exactly structural equality of the model: two
   * `Sequence`s are equal exactly when their longs are, two `TimeUuid`s
   * exactly when their UUIDs are, offsets of different variants never, and
   * `None` has one value.
   */
  lemma EqualsIsStructural(a: MessageOffset, b: MessageOffset)
    ensures Equals(a, b) <==> a == b
  {
  }

  /** `equals` is reflexive, symmetric and transitive on every variant. */
  lemma EqualsIsEquivalence(a: MessageOffset, b: MessageOffset, c: MessageOffset)
    ensures Equals(a, a)
    ensures Equals(a, b) <==> Equals(b, a)
    ensures Equals(a, b) && Equals(b, c) ==> Equals(a, c)
  {
  }

  /** Equal offsets have equal hash codes, whatever hash the UUIDs have. */
  lemma HashCodeAgreesWithEquals(a: MessageOffset, b: MessageOffset, uuidHash: Uuids.Uuid -> Int, noneHash: Int)
    requires Equals(a, b)
    ensures HashCode(a, uuidHash, noneHash) == HashCode(b, uuidHash, noneHash)
  {
  }

  /** A non-negative sequence number that fits an `int` is its own hash. */
  lemma SmallSequenceHash(v: Long)
    requires 0 <= v < 0x8000_0000
    ensures SequenceHash(v) as int == v as int
  {
    Pow2Values();
    assert High32(v) == 0;
    XorZero(Low32(v), 32);
    LowBitsOfSmall(Unsigned64(v), 32);
    LowBitsOfSmall(Low32(v), 32);
  }

  /** A negative sequence number that fits an `int` hashes to its complement `-1 - v`. */
  lemma NegativeSequenceHash(v: Long)
    requires -0x8000_0000 <= v < 0
    ensures SequenceHash(v) as int == -1 - v as int
  {
    Pow2Values();
    var u := Unsigned64(v);
    var low := v as int + 0x1_0000_0000;
    assert u == 0xFFFF_FFFF * 0x1_0000_0000 + low;
    assert High32(v) == 0xFFFF_FFFF;
    LowBitsOfSum(0xFFFF_FFFF, low, 32);
    assert Low32(v) == low;
    XorAllOnes(low, 32);
    assert Xor32(Low32(v), High32(v)) == -1 - v as int;
  }

  /**
   * The hash is not injective: for every `v` from 0 to 2^31 - 1, `Sequence(v)`
   * and `Sequence(-1 - v)` share a hash without being equal.
   */
  lemma SequenceHashCollisions(v: Long)
    requires 0 <= v < 0x8000_0000
    ensures SequenceHash(v) == SequenceHash(-1 - v)
    ensures !Equals(Sequence(v), Sequence(-1 - v))
  {
    SmallSequenceHash(v);
    NegativeSequenceHash(-1 - v);
  }

  /** The documented order of `Sequence` offsets: the natural order of their longs. */
  predicate SequenceLe(a: MessageOffset, b: MessageOffset)
    requires a.Sequence? && b.Sequence?
  {
    a.value <= b.value
  }

  /** The `Sequence` order is a total order whose equality is `equals`. */
  lemma SequenceOrderIsTotal(a: MessageOffset, b: MessageOffset, c: MessageOffset)
    requires a.Sequence? && b.Sequence? && c.Sequence?
    ensures SequenceLe(a, a)
    ensures SequenceLe(a, b) && SequenceLe(b, a) <==> Equals(a, b)
    ensures SequenceLe(a, b) && SequenceLe(b, c) ==> SequenceLe(a, c)
    ensures SequenceLe(a, b) || SequenceLe(b, a)
  {
  }

  /** The documented order of `TimeUuid` offsets: by the timestamps in their UUIDs. */
  predicate TimeUuidLe(a: MessageOffset, b: MessageOffset)
    requires a.TimeUuid? && b.TimeUuid?
  {
    Uuids.Timestamp(a.uuid) <= Uuids.Timestamp(b.uuid)
  }

  /** The `TimeUuid` order is total and transitive, and equal offsets are equivalent in it. */
  lemma TimeUuidOrderIsTotalPreorder(a: MessageOffset, b: MessageOffset, c: MessageOffset)
    requires a.TimeUuid? && b.TimeUuid? && c.TimeUuid?
    ensures Equals(a, b) ==> TimeUuidLe(a, b) && TimeUuidLe(b, a)
    ensures TimeUuidLe(a, b) && TimeUuidLe(b, c) ==> TimeUuidLe(a, c)
    ensures TimeUuidLe(a, b) || TimeUuidLe(b, a)
  {
  }

  /**
   * Ordering by timestamp alone is not antisymmetric: two `TimeUuid`s of the
   * same version and timestamp are each ordered before the other exactly when
   * their most significant halves agree, yet they are unequal whenever their
   * least significant halves (clock sequence and node) differ.
   */
  lemma TimeUuidTiesAreNotEqual(a: MessageOffset, b: MessageOffset)
    requires a.TimeUuid? && b.TimeUuid?
    requires Uuids.Version(a.uuid) == Uuids.Version(b.uuid)
    ensures TimeUuidLe(a, b) && TimeUuidLe(b, a) <==> a.uuid.mostSigBits == b.uuid.mostSigBits
    ensures a.uuid.mostSigBits == b.uuid.mostSigBits && a.uuid.leastSigBits != b.uuid.leastSigBits
            ==> TimeUuidLe(a, b) && TimeUuidLe(b, a) && !Equals(a, b)
  {
    if TimeUuidLe(a, b) && TimeUuidLe(b, a) {
      Uuids.TimestampDeterminesMostSigBits(a.uuid, b.uuid);
    }
  }
}
