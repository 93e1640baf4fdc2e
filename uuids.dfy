/**
 * `java.util.UUID` as a value: its two 64-bit halves, structural equality,
 * and the 60-bit timestamp (section 4.1.4 of RFC 4122) of a time-based UUID,
 * whose fields are laid out as in section 4.1.2 of RFC 4122 (time_low in the
 * top 32 bits of the most significant half, time_mid in the next 16, then the
 * 4-bit version, then the 12-bit time_hi).
 */
module Uuids {
  import opened JavaNumbers

  datatype Uuid = Uuid(mostSigBits: Long, leastSigBits: Long)

  /** `UUID.equals`: both halves agree. */
  predicate Equals(a: Uuid, b: Uuid) {
    a.mostSigBits == b.mostSigBits && a.leastSigBits == b.leastSigBits
  }

  function TimeLow(u: Uuid): (r: nat)
    ensures r < 0x1_0000_0000
  {
    Unsigned64(u.mostSigBits) / 0x1_0000_0000
  }

  function TimeMid(u: Uuid): (r: nat)
    ensures r < 0x1_0000
  {
    Unsigned64(u.mostSigBits) / 0x1_0000 % 0x1_0000
  }

  function Version(u: Uuid): (r: nat)
    ensures r < 0x10
  {
    Unsigned64(u.mostSigBits) / 0x1000 % 0x10
  }

  function TimeHi(u: Uuid): (r: nat)
    ensures r < 0x1000
  {
    Unsigned64(u.mostSigBits) % 0x1000
  }

  /**
   * The 60-bit timestamp: time_hi, time_mid and time_low from the most
   * significant to the least significant bits.
   */
  function Timestamp(u: Uuid): (t: nat)
    ensures t < 0x1000_0000_0000_0000
    ensures t % 0x1_0000_0000 == TimeLow(u)
    ensures t / 0x1_0000_0000 % 0x1_0000 == TimeMid(u)
    ensures t / 0x1_0000_0000_0000 == TimeHi(u)
  {
    var upper := TimeHi(u) * 0x1_0000 + TimeMid(u);
    var t := upper * 0x1_0000_0000 + TimeLow(u);
    assert t / 0x1_0000_0000 == upper && t % 0x1_0000_0000 == TimeLow(u);
    assert t / 0x1_0000_0000_0000 == upper / 0x1_0000;
    t
  }

  /** The four fields together are the whole most significant half. */
  lemma FieldsMakeMostSigBits(u: Uuid)
    ensures Unsigned64(u.mostSigBits)
         == TimeLow(u) * 0x1_0000_0000 + TimeMid(u) * 0x1_0000 + Version(u) * 0x1000 + TimeHi(u)
  {
    var m := Unsigned64(u.mostSigBits);
    var high, low := m / 0x1_0000, m % 0x1_0000;
    assert m == high * 0x1_0000 + low;
    assert high == TimeLow(u) * 0x1_0000 + TimeMid(u) by {
      assert high / 0x1_0000 == TimeLow(u);
    }
    assert low == Version(u) * 0x1000 + TimeHi(u) by {
      assert m / 0x1000 == high * 0x10 + low / 0x1000;
      assert low % 0x1000 == TimeHi(u);
    }
  }

  /**
   * The timestamp loses nothing of the most significant half but the version:
   * two UUIDs of the same version and timestamp have the same most significant half.
   */
  lemma TimestampDeterminesMostSigBits(a: Uuid, b: Uuid)
    requires Version(a) == Version(b)
    requires Timestamp(a) == Timestamp(b)
    ensures a.mostSigBits == b.mostSigBits
  {
    FieldsMakeMostSigBits(a);
    FieldsMakeMostSigBits(b);
  }
}
