/** `round_down_power_of_2` (util.c:314-319) and the leading-zero count it shifts by. */
module Bits {
  import opened Base

  /** The number of significant bits of a: 0 for 0, otherwise one more than the index of the
      highest set bit. */
  function BitLength(a: nat): (r: nat)
    ensures a > 0 ==> r >= 1
  {
    if a == 0 then 0 else 1 + BitLength(a / 2)
  }

  /** a lies between the power of two of its top bit and the next one. */
  lemma {:induction false} BitLengthBounds(a: nat)
    ensures a < Pow2(BitLength(a))
    ensures a > 0 ==> Pow2(BitLength(a) - 1) <= a
  {
    if a > 0 {
      BitLengthBounds(a / 2);
    }
  }

  /** A 32-bit value has at most 32 significant bits. */
  lemma {:induction false} BitLengthU32(a: nat, k: nat)
    requires a < Pow2(k)
    ensures BitLength(a) <= k
  {
    if a > 0 {
      assert k > 0;
      BitLengthU32(a / 2, k - 1);
    }
  }

  lemma Pow2Of32()
    ensures Pow2(32) == U32_LIMIT && Pow2(31) == 0x8000_0000
  {
    assert Pow2(8) == 256;
    assert Pow2(16) == 65536;
    assert Pow2(24) == 0x100_0000;
  }

  /** `clz_u32`: leading zero bits of a 32-bit value, 32 for 0. */
  function Clz32(a: nat): (r: nat)
    requires IsU32(a)
    ensures r <= 32 && (a == 0 <==> r == 32)
  {
    Pow2Of32();
    BitLengthU32(a, 32);
    32 - BitLength(a)
  }

  lemma Pow2Split(p: nat, q: nat)
    ensures Pow2(p + q) == Pow2(p) * Pow2(q)
    decreases p
  {
    if p > 0 {
      Pow2Split(p - 1, q);
      assert Pow2(p + q) == 2 * Pow2(p - 1 + q);
      DoubleFactor(Pow2(p - 1), Pow2(q));
    }
  }

  lemma DoubleFactor(a: int, b: int)
    ensures 2 * (a * b) == (2 * a) * b
  {
  }

  /** Shifting the top bit of a u32 right by the leading-zero count of a > 0 lands on a's own
      top bit. */
  lemma ShiftToTopBit(a: nat)
    requires IsU32(a) && a > 0
    ensures 0x8000_0000 / Pow2(Clz32(a)) == Pow2(BitLength(a) - 1)
  {
    Pow2Of32();
    BitLengthU32(a, 32);
    var top := BitLength(a) - 1;
    var shift := Clz32(a);
    assert top + shift == 31;
    Pow2Split(top, shift);
    MulDivExact(Pow2(top), Pow2(shift));
  }

  /** `round_down_power_of_2` (util.c:314-319): `0x80000000UL >> clz_u32(a)`, a shift of a
      64-bit constant, so the shift by 32 that a = 0 asks for yields 0. For a > 0 the result is
      the largest power of two not above a. */
  function RoundDownPowerOfTwo(a: nat): (r: nat)
    requires IsU32(a)
    ensures a == 0 ==> r == 0
    ensures a > 0 ==> IsPowerOfTwo(r) && r <= a < 2 * r
  {
    if a > 0 then
      ShiftToTopBit(a);
      BitLengthBounds(a);
      Pow2IsPowerOfTwo(BitLength(a) - 1);
      0x8000_0000 / Pow2(Clz32(a))
    else
      Pow2Of32();
      0x8000_0000 / Pow2(Clz32(a))
  }
}
