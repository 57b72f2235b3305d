/**
 * The flags of a 32-bit subtraction `v1 - v2`, derived the way the emulator derives them from
 * the two operands and a result the caller computed in 64-bit unsigned arithmetic, so that a
 * borrow shows up above bit 31. The lemmas say what each flag then means for the operands: CF
 * is the unsigned borrow, ZF equality, SF the sign of the 32-bit difference and OF signed
 * overflow, so that SF != OF is the signed "less than" (Intel SDM Vol. 1, section 3.4.3.1).
 */
module SubtractionFlags {
  import opened Bytes

  /** The four status flags as values. */
  datatype Status = Status(carry: bool, zero: bool, sign: bool, overflow: bool)

  /**
   * The flags for operands `v1`, `v2` and 64-bit result `result`: CF when `result >> 32` is
   * nonzero, ZF when the whole 64-bit result is zero, SF as bit 31 of the result, and OF when
   * the operands' sign bits differ and the result's sign bit differs from v1's.
   */
  function SubStatus(v1: u32, v2: u32, result: u64): Status
  {
    var sign1 := v1 / 0x8000_0000;
    var sign2 := v2 / 0x8000_0000;
    var signr := result / 0x8000_0000 % 2;
    Status(result / 0x1_0000_0000 != 0, result == 0, signr != 0, sign1 != sign2 && sign1 != signr)
  }

  /** The result a caller passes: `(uint64_t)v1 - (uint64_t)v2`, the difference modulo 2^64. */
  function WidenedDifference(v1: u32, v2: u32): (r: u64)
    ensures v1 >= v2 ==> r == v1 - v2
    ensures v1 < v2 ==> r == 0x1_0000_0000_0000_0000 + v1 - v2
  {
    Wrap64(v1 - v2)
  }

  /** Bit 31 of the widened difference is bit 31 of the 32-bit difference. */
  lemma Bit31OfDifference(v1: u32, v2: u32)
    ensures WidenedDifference(v1, v2) / 0x8000_0000 % 2 == Wrap32(v1 - v2) / 0x8000_0000
  {
    var r := WidenedDifference(v1, v2);
    if v1 < v2 {
      assert r == 0xFFFF_FFFF_0000_0000 + Wrap32(v1 - v2);
      assert r / 0x8000_0000 == 0x1_FFFF_FFFE + Wrap32(v1 - v2) / 0x8000_0000;
    }
  }

  /** CF after a subtraction is the unsigned borrow: it is set exactly when v2 > v1. */
  lemma SubCarryIsBorrow(v1: u32, v2: u32)
    ensures SubStatus(v1, v2, WidenedDifference(v1, v2)).carry <==> v1 < v2
  {
  }

  /** ZF is set exactly when the operands are equal, and testing the whole 64-bit result agrees with testing its low 32 bits. */
  lemma SubZeroIsEqual(v1: u32, v2: u32)
    ensures SubStatus(v1, v2, WidenedDifference(v1, v2)).zero <==> v1 == v2
    ensures v1 == v2 <==> Wrap32(WidenedDifference(v1, v2)) == 0
  {
  }

  /** SF is the sign of the 32-bit difference read as a signed number. */
  lemma SubSignIsResultSign(v1: u32, v2: u32)
    ensures SubStatus(v1, v2, WidenedDifference(v1, v2)).sign <==> Signed32(Wrap32(v1 - v2)) < 0
  {
    Bit31OfDifference(v1, v2);
  }

  /** OF is set exactly when the true difference of the signed operands does not fit in 32 bits. */
  lemma SubOverflowIsSignedOverflow(v1: u32, v2: u32)
    ensures SubStatus(v1, v2, WidenedDifference(v1, v2)).overflow
        <==> !(-0x8000_0000 <= Signed32(v1) - Signed32(v2) < 0x8000_0000)
  {
    Bit31OfDifference(v1, v2);
  }

  /** Without overflow the 32-bit difference is the true signed difference. */
  lemma SubNoOverflowIsExact(v1: u32, v2: u32)
    requires !SubStatus(v1, v2, WidenedDifference(v1, v2)).overflow
    ensures Signed32(Wrap32(v1 - v2)) == Signed32(v1) - Signed32(v2)
  {
    SubOverflowIsSignedOverflow(v1, v2);
  }

  /** SF != OF is the signed comparison v1 < v2, the condition of JL. */
  lemma SubSignedLess(v1: u32, v2: u32)
    ensures var s := SubStatus(v1, v2, WidenedDifference(v1, v2));
      s.sign != s.overflow <==> Signed32(v1) < Signed32(v2)
  {
    SubSignIsResultSign(v1, v2);
    SubOverflowIsSignedOverflow(v1, v2);
  }

  /** Three worked subtractions: 5 - 3, 3 - 5 (a borrow) and 0x80000000 - 1 (a signed overflow). */
  lemma SubExamples()
    ensures SubStatus(5, 3, WidenedDifference(5, 3)) == Status(false, false, false, false)
    ensures SubStatus(3, 5, WidenedDifference(3, 5)) == Status(true, false, true, false)
    ensures SubStatus(0x8000_0000, 1, WidenedDifference(0x8000_0000, 1)) == Status(false, false, false, true)
  {
  }
}
