/**
 * Java's fixed-width signed integers and the bit operations the offsets use,
 * on the unsigned two's-complement patterns: `^` and the narrowing cast
 * `(int)` one bit at a time, and `>>> 32` as a division by 2^32.
 */
module JavaNumbers {

  /** Java `long`: 64-bit signed. */
  newtype Long = x: int | -0x8000_0000_0000_0000 <= x < 0x8000_0000_0000_0000

  /** Java `int`: 32-bit signed. */
  newtype Int = x: int | -0x8000_0000 <= x < 0x8000_0000

  function Pow2(n: nat): (p: nat)
    ensures p > 0
  {
    if n == 0 then 1 else 2 * Pow2(n - 1)
  }

  /** The two's-complement pattern of a long, read as an unsigned 64-bit number. */
  function Unsigned64(v: Long): (u: nat)
    ensures u < 0x1_0000_0000_0000_0000
    ensures v >= 0 ==> u == v as int
    ensures v < 0 ==> u == v as int + 0x1_0000_0000_0000_0000
  {
    v as int % 0x1_0000_0000_0000_0000
  }

  /** The 32-bit pattern `u`, reinterpreted as a signed int (two's complement). */
  function Signed32(u: nat): (i: Int)
    requires u < 0x1_0000_0000
    ensures i as int % 0x1_0000_0000 == u
  {
    if u < 0x8000_0000 then u as Int else (u - 0x1_0000_0000) as Int
  }

  /** The lowest `k` bits of `x`. */
  function LowBits(x: nat, k: nat): (r: nat)
    ensures r < Pow2(k)
  {
    if k == 0 then 0 else x % 2 + 2 * LowBits(x / 2, k - 1)
  }

  /** Bitwise exclusive or of the lowest `n` bits of `a` and `b`. */
  function BitXor(a: nat, b: nat, n: nat): (r: nat)
    ensures r < Pow2(n)
  {
    if n == 0 then 0
    else (if a % 2 == b % 2 then 0 else 1) + 2 * BitXor(a / 2, b / 2, n - 1)
  }

  /** Bitwise exclusive or of two 32-bit patterns. */
  function Xor32(a: nat, b: nat): (r: nat)
    ensures r < 0x1_0000_0000
  {
    Pow2Values();
    BitXor(a, b, 32)
  }

  /** Java's `a ^ b` on longs. */
  function LongXor(a: Long, b: Long): (r: nat)
    ensures r < 0x1_0000_0000_0000_0000
  {
    Pow2Values();
    BitXor(Unsigned64(a), Unsigned64(b), 64)
  }

  /** Java's `v >>> 32`: the high 32 bits of `v`, shifted down with zeros in. */
  function UnsignedShiftRight32(v: Long): (r: Long)
    ensures 0 <= r < 0x1_0000_0000
  {
    (Unsigned64(v) / 0x1_0000_0000) as Long
  }

  /** Java's narrowing cast `(int) x` of a 64-bit pattern: its low 32 bits, read as signed. */
  function NarrowToInt(x: nat): (i: Int)
  {
    Pow2Values();
    Signed32(LowBits(x, 32))
  }

  /** The low 32 bits of a long, as `(int)` keeps them (unsigned). */
  function Low32(v: Long): (r: nat)
    ensures r < 0x1_0000_0000
  {
    Pow2Values();
    LowBits(Unsigned64(v), 32)
  }

  /** The high 32 bits of a long (unsigned). */
  function High32(v: Long): (r: nat)
    ensures r < 0x1_0000_0000
  {
    Unsigned64(v) / 0x1_0000_0000
  }

  lemma Pow2Values()
    ensures Pow2(32) == 0x1_0000_0000
    ensures Pow2(64) == 0x1_0000_0000_0000_0000
  {
    assert Pow2(4) == 16;
    Pow2Add(4, 4);
    assert Pow2(8) == 0x100;
    Pow2Add(8, 8);
    assert Pow2(16) == 0x1_0000;
    Pow2Add(16, 16);
    assert Pow2(32) == 0x1_0000_0000;
    Pow2Add(32, 32);
  }

  lemma {:induction false} Pow2Add(a: nat, b: nat)
    ensures Pow2(a + b) == Pow2(a) * Pow2(b)
  {
    if a > 0 {
      Pow2Add(a - 1, b);
    }
  }

  /** The low `k` bits of a number below 2^k are the number itself. */
  lemma {:induction false} LowBitsOfSmall(x: nat, k: nat)
    requires x < Pow2(k)
    ensures LowBits(x, k) == x
  {
    if k > 0 {
      LowBitsOfSmall(x / 2, k - 1);
    }
  }

  /** A number `bit + 2 * y` has parity `bit` and half `y`. */
  lemma ParityAndHalf(bit: nat, y: nat)
    requires bit < 2
    ensures (bit + 2 * y) % 2 == bit && (bit + 2 * y) / 2 == y
  {
  }

  /** Taking the low `k` bits commutes with exclusive or. */
  lemma {:induction false} LowBitsOfXor(a: nat, b: nat, n: nat, k: nat)
    requires k <= n
    ensures LowBits(BitXor(a, b, n), k) == BitXor(LowBits(a, k), LowBits(b, k), k)
  {
    if k > 0 {
      LowBitsOfXorUnfold(a, b, n, k);
      XorOfLowBitsUnfold(a, b, k);
      LowBitsOfXor(a / 2, b / 2, n - 1, k - 1);
    }
  }

  /** One step of the left-hand side of `LowBitsOfXor`: the lowest bit, then the rest. */
  lemma LowBitsOfXorUnfold(a: nat, b: nat, n: nat, k: nat)
    requires 0 < k <= n
    ensures LowBits(BitXor(a, b, n), k)
         == (if a % 2 == b % 2 then 0 else 1) + 2 * LowBits(BitXor(a / 2, b / 2, n - 1), k - 1)
  {
    var bit := if a % 2 == b % 2 then 0 else 1;
    ParityAndHalf(bit, BitXor(a / 2, b / 2, n - 1));
  }

  /** One step of the right-hand side of `LowBitsOfXor`: the lowest bit, then the rest. */
  lemma XorOfLowBitsUnfold(a: nat, b: nat, k: nat)
    requires 0 < k
    ensures BitXor(LowBits(a, k), LowBits(b, k), k)
         == (if a % 2 == b % 2 then 0 else 1) + 2 * BitXor(LowBits(a / 2, k - 1), LowBits(b / 2, k - 1), k - 1)
  {
    ParityAndHalf(a % 2, LowBits(a / 2, k - 1));
    ParityAndHalf(b % 2, LowBits(b / 2, k - 1));
  }

  /** The low `k` bits of `q * 2^k + r` are `r`, for `r` below 2^k. */
  lemma {:induction false} LowBitsOfSum(q: nat, r: nat, k: nat)
    requires r < Pow2(k)
    ensures LowBits(q * Pow2(k) + r, k) == r
  {
    if k > 0 {
      var x := q * Pow2(k) + r;
      var y := q * Pow2(k - 1) + r / 2;
      assert q * Pow2(k) == 2 * (q * Pow2(k - 1));
      assert x == r % 2 + 2 * y;
      ParityAndHalf(r % 2, y);
      LowBitsOfSum(q, r / 2, k - 1);
    }
  }

  /** Exclusive or with all ones is the complement. */
  lemma {:induction false} XorAllOnes(a: nat, n: nat)
    requires a < Pow2(n)
    ensures BitXor(a, Pow2(n) - 1, n) == Pow2(n) - 1 - a
  {
    if n > 0 {
      var half := Pow2(n - 1) - 1;
      assert Pow2(n) - 1 == 2 * half + 1;
      assert (2 * half + 1) % 2 == 1 && (2 * half + 1) / 2 == half;
      XorAllOnes(a / 2, n - 1);
    }
  }

  /** Exclusive or with zero keeps the low bits. */
  lemma {:induction false} XorZero(a: nat, n: nat)
    ensures BitXor(a, 0, n) == LowBits(a, n)
  {
    if n > 0 {
      XorZero(a / 2, n - 1);
    }
  }
}
