# java-messaging: offsets, envelopes and offset conversion

This project models the parts of the java-messaging broker abstraction that have behaviour, as Dafny datatypes, functions and lemmas:

- **Message offsets** (`MessageOffsets`, `message_offset.dfy`). A `MessageOffset` is `Sequence(long)`, `TimeUuid(UUID)` or the enum constant `None`. The model covers Java's `equals` and `hashCode` for each variant, and the two orderings the documentation promises. `Sequence` offsets are ordered as their longs. `TimeUuid` offsets are ordered by the 60-bit timestamp of their UUIDs.
- **Java numbers and UUIDs** (`JavaNumbers`, `Uuids`). `long` and `int` are range-restricted integers. The bit operations of `Sequence.hashCode` work on the unsigned two's-complement patterns: `^` and the narrowing `(int)` cast are written out one bit at a time, and `>>> 32` divides the pattern by 2^32. A UUID is its two 64-bit halves. Its timestamp fields (time_low, time_mid, version, time_hi) are laid out as in section 4.1.2 of RFC 4122, and the 60-bit timestamp built from them is the one section 4.1.4 defines.
- **Message envelopes** (`ApiEnvelope` and `CoreEnvelope`). These model the two copies of `MessageEnvelope`, one in the `api` artifact and one in the main artifact. An envelope carries a message and an offset slot. The slot either keeps the interface's default `offset()`, which is `None`, or overrides it. `Offset` reads the envelope's offset, and `Create` and `CreateWithOffset` are the factories. The default `commit()` is a method that leaves the envelope unchanged.
- **Offset conversion of the CQRS example** (`CqrsOffsets`). `convertOffset` and `convertAkkaOffset` map between messaging offsets and Akka persistence-query offsets. The Akka side has an extra `Other` variant for any further `Offset` subclass, which makes the `IllegalArgumentException` branch reachable as an error result. Akka's `TimeBasedUUID` constructor refuses any UUID whose version is not 1, with an `IllegalArgumentException` of its own. So `convertOffset` fails on such a `TimeUuid`, and `Constructible` states the same restriction for Akka offsets. Akka's sources are not part of this model; only this constructor check is taken from them.

The offset orders come from the source's doc comments:

- The source defines no comparison operation. The model states only the two orders its doc comments promise: `Sequence` by its long (MessageOffset.java:13) and `TimeUuid` by the timestamp in its UUID (MessageOffset.java:51). Each is a predicate that requires both offsets to be of that variant. Nothing is said about comparing offsets of different variants.
- The doc comment orders `TimeUuid` offsets by timestamp alone, with no tie-break. `TimeUuidTiesAreNotEqual` shows that this order is a preorder and not antisymmetric.

In the CQRS example, the accessor `Sequence.value()` is package-private in the source, yet it is called from another package. The model treats it as visible.

## Model

| member | source | states |
|---|---|---|
| `MessageOffsets.EqualsIsStructural` | src/main/java/org/example/messaging/MessageOffset.java:26-94 | `equals` holds exactly when the two offsets are the same value. Two `Sequence`s are equal iff their longs are equal, and two `TimeUuid`s iff their UUIDs are. Offsets of different variants are never equal, and `None` has one value. |
| `MessageOffsets.EqualsIsEquivalence` | src/main/java/org/example/messaging/MessageOffset.java:27-73 | `equals` is reflexive, symmetric and transitive on every variant. |
| `MessageOffsets.SequenceHash` | src/main/java/org/example/messaging/MessageOffset.java:37-40 | `(int)(value ^ (value >>> 32))` is the low 32 bits XOR the high 32 bits of the value, read as a signed int. |
| `MessageOffsets.HashCodeAgreesWithEquals` | src/main/java/org/example/messaging/MessageOffset.java:37-78 | Equal offsets have equal hash codes for every `Sequence` and `TimeUuid`, whatever `UUID.hashCode` is. |
| `MessageOffsets.SmallSequenceHash` | src/main/java/org/example/messaging/MessageOffset.java:38-40 | A `Sequence` whose value is non-negative and fits an `int` hashes to that value. |
| `MessageOffsets.NegativeSequenceHash` | src/main/java/org/example/messaging/MessageOffset.java:38-40 | A `Sequence` whose value is negative and fits an `int` hashes to its complement `-1 - v`. |
| `MessageOffsets.SequenceHashCollisions` | src/main/java/org/example/messaging/MessageOffset.java:38-40 | For each `v` from 0 to 2^31 - 1, `Sequence(v)` and `Sequence(-1 - v)` share a hash but are not equal. So an equal hash does not imply equal offsets. |
| `MessageOffsets.SequenceOrderIsTotal` | src/main/java/org/example/messaging/MessageOffset.java:12-15 | The documented `Sequence` order (by the longs) is reflexive, transitive and total. Its two-way relation is exactly `equals`. |
| `MessageOffsets.TimeUuidOrderIsTotalPreorder` | src/main/java/org/example/messaging/MessageOffset.java:50-53 | The documented `TimeUuid` order (by timestamp) is total and transitive. Equal offsets rank the same in it. |
| `MessageOffsets.TimeUuidTiesAreNotEqual` | src/main/java/org/example/messaging/MessageOffset.java:50-53 | Take two UUIDs of the same version. They tie in the timestamp order exactly when their most significant halves agree. Such ties are unequal offsets whenever the least significant halves differ. |
| `Uuids.Timestamp` | src/main/java/org/example/messaging/MessageOffset.java:51 | The timestamp is below 2^60. Its low 32 bits are time_low, the next 16 are time_mid and the top 12 are time_hi of the UUID's most significant half. |
| `Uuids.TimestampDeterminesMostSigBits` | src/main/java/org/example/messaging/MessageOffset.java:51 | The timestamp and the version together determine the UUID's most significant half. |
| `ApiEnvelope.Offset` | api/src/main/java/org/example/messaging/MessageEnvelope.java:20-22 | `offset()` answers `None` unless the envelope overrides it, and otherwise the overriding offset. |
| `ApiEnvelope.Create` | api/src/main/java/org/example/messaging/MessageEnvelope.java:33-35 | `create(m).message()` is `m` and `create(m).offset()` is `None`. |
| `ApiEnvelope.CreateWithOffset` | api/src/main/java/org/example/messaging/MessageEnvelope.java:40-50 | `create(m, o).message()` is `m` and `create(m, o).offset()` is `o`. |
| `ApiEnvelope.Commit` | api/src/main/java/org/example/messaging/MessageEnvelope.java:27-28 | The default `commit()` modifies nothing. The envelope answers the same message and offset afterwards. |
| `ApiEnvelope.CreateWithNoneActsAsCreate` | api/src/main/java/org/example/messaging/MessageEnvelope.java:20-50 | `create(m, None)` agrees with `create(m)` on `message()` and `offset()`, though the two are distinct implementations. |
| `ApiEnvelope.FactoriesAgreeExactly` | api/src/main/java/org/example/messaging/MessageEnvelope.java:33-50 | Compare `create(m1)` with `create(m2, o)` through `message()` and `offset()`. They agree iff `m1 == m2` and `o` is `None`. |
| `CoreEnvelope.Offset` | src/main/java/org/example/messaging/MessageEnvelope.java:20-22 | `offset()` answers `None` unless the envelope overrides it. |
| `CoreEnvelope.Create` | src/main/java/org/example/messaging/MessageEnvelope.java:33-35 | `create(m).message()` is `m` and `create(m).offset()` is `None`. |
| `CoreEnvelope.Commit` | src/main/java/org/example/messaging/MessageEnvelope.java:27-28 | The default `commit()` modifies nothing and leaves the envelope as it was. |
| `CoreEnvelope.CreateIsInjective` | src/main/java/org/example/messaging/MessageEnvelope.java:33-35 | Envelopes from `create` answer the same `message()` iff they were built from the same message. They always answer the same `offset()`. |
| `CqrsOffsets.ConvertOffset` | examples/src/main/java/org/example/examples/CQRSExample.java:121-131 | `convertOffset` fails exactly on a `TimeUuid` whose UUID is not version 1, which Akka's `TimeBasedUUID` constructor refuses. Otherwise it yields a constructible, known Akka offset of the same kind with the same long or UUID payload, and `None` maps to `NoOffset`. |
| `CqrsOffsets.ConvertAkkaOffset` | examples/src/main/java/org/example/examples/CQRSExample.java:136-146 | `convertAkkaOffset` fails exactly on an unknown offset kind, with "Unknown offset type: " and the offset's description. It maps `NoOffset` to `None`, and otherwise keeps the kind and payload. |
| `CqrsOffsets.MessagingRoundTrip` | examples/src/main/java/org/example/examples/CQRSExample.java:121-146 | `convertAkkaOffset(convertOffset(o)) == o` for every `Sequence`, for `None`, and for every `TimeUuid` whose UUID is version 1. |
| `CqrsOffsets.AkkaRoundTrip` | examples/src/main/java/org/example/examples/CQRSExample.java:121-146 | `convertOffset(convertAkkaOffset(a)) == a` for every Akka offset of the three known kinds that Akka can construct. |
| `CqrsOffsets.RandomUuidIsRefused` | examples/src/main/java/org/example/examples/CQRSExample.java:124-125 | Every `TimeUuid` whose UUID is version 4 (random) is refused by `convertOffset`, with the UUID as the error. |
| `CqrsOffsets.ConvertOffsetRespectsEquals` | examples/src/main/java/org/example/examples/CQRSExample.java:121-131 | Two messaging offsets give the same conversion result exactly when they are `equals`, counting failures as results. |

## Left out

- `MessageBroker.register` and `MessageBroker.create`: these are interface declarations only. Their behaviour (reflection and dynamic proxies) is not in the source.
- The annotations `MessagePublisher`, `MessageSubscriber`, `Partitioned` and `Partition`: they are declarations only. No code reads the `Partitioned` default of -1.
- The rest of the CQRS example and all of the republish example: Akka and reactive-streams wiring, output to stdout and concurrency. `SomeEvent` is a plain data holder.
- Partition assignment, acknowledgement protocol, supervision, backoff and the offset store: no code in the source implements them. The doc comment of `MessageBroker.register` (MessageBroker.java:37-38) says the framework manages stream lifecycles, errors, partitioning, backoff and reconnections, but the source contains only the interface.
- `CqrsOffsets.ConvertOffset`: the `IllegalArgumentException` for an unknown `MessageOffset` implementation is not modelled. `MessageOffset` is modelled as the closed set of three variants the source declares, so that branch cannot be reached.
- `MessageOffsets.HashCode`: the hashes of `UUID` and of the `None` constant are parameters. `UUID.hashCode` is not part of this model, and the enum constant's identity hash is chosen by the JVM at run time.
- `MessageOffsets.TimeUuidLe`: the order computes the RFC 4122 timestamp fields for any UUID. It does not model the `UnsupportedOperationException` that `UUID.timestamp()` raises for a UUID that is not version 1.
- `toString` of the offsets and UUIDs: the strings are not produced. The description of an unknown Akka offset, which `toString` would supply, is carried as a string. A refused UUID's exception message is represented by the refused UUID itself.
- Java `null`s and Java's access control.
