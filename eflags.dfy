/**
 * The EFLAGS register as a 32-bit word and the four status flags the emulator maintains, each a
 * single-bit mask in the x86 layout (Intel SDM Vol. 1, section 3.4.3.1): CF is bit 0, ZF bit 6,
 * SF bit 7 and OF bit 11. A mask `1 << k` is named by its bit position `k`.
 *
 * Bits are defined arithmetically: bit k of x is `(x >> k) & 1`, so `x | (1 << k)` adds 2^k when
 * bit k is clear and `x & ~(1 << k)` subtracts it when bit k is set. The facts about setting and
 * testing a flag rely only on each mask being one bit and on the positions being distinct.
 */
module Eflags {
  import opened Bytes

  const CARRY_BIT: nat := 0
  const ZERO_BIT: nat := 6
  const SIGN_BIT: nat := 7
  const OVERFLOW_BIT: nat := 11

  /** 2^n, the single-bit mask `1 << n`. */
  function Pow2(n: nat): (p: nat)
    ensures p > 0
  {
    if n == 0 then 1 else 2 * Pow2(n - 1)
  }

  /** Bit k of x: `((x >> k) & 1) == 1`. */
  predicate Bit(x: nat, k: nat)
  {
    if k == 0 then x % 2 == 1 else Bit(x / 2, k - 1)
  }

  /** `x | (1 << k)` for a 32-bit x: switches bit k on and keeps every other bit. */
  function SetBit(x: u32, k: nat): (r: u32)
    requires k < 32
    ensures Bit(r, k)
    ensures forall j :: j != k ==> Bit(r, j) == Bit(x, j)
  {
    if Bit(x, k) then x
    else
      assert x < Pow2(32) by { Pow2Of32(); }
      AddBitBound(x, k, 32);
      forall j | j != k ensures Bit(x + Pow2(k), j) == Bit(x, j) {
        AddBitAt(x, k, j);
      }
      AddBitAt(x, k, k);
      Pow2Of32();
      x + Pow2(k)
  }

  /** `x & ~(1 << k)`: switches bit k off and keeps every other bit. */
  function ClearBit(x: u32, k: nat): (r: u32)
    ensures !Bit(r, k)
    ensures forall j :: j != k ==> Bit(r, j) == Bit(x, j)
  {
    if Bit(x, k) then
      forall j ensures x >= Pow2(k) && Bit(x - Pow2(k), j) == (j != k && Bit(x, j)) {
        RemoveBitAt(x, k, j);
      }
      x - Pow2(k)
    else x
  }

  lemma Pow2Of32()
    ensures Pow2(32) == 0x1_0000_0000
  {
    assert Pow2(8) == 0x100;
    assert Pow2(16) == 0x1_0000;
    assert Pow2(24) == 0x100_0000;
  }

  /** Adding 2^k to a number whose bit k is clear sets bit k and changes no other bit. */
  lemma {:induction false} AddBitAt(x: nat, k: nat, j: nat)
    requires !Bit(x, k)
    ensures Bit(x + Pow2(k), j) == (j == k || Bit(x, j))
  {
    if k == 0 {
      if j > 0 {
        assert (x + 1) / 2 == x / 2;
      }
    } else if j > 0 {
      assert (x + Pow2(k)) / 2 == x / 2 + Pow2(k - 1);
      AddBitAt(x / 2, k - 1, j - 1);
    }
  }

  /** A number with bit k set is at least 2^k, and subtracting 2^k clears bit k and changes no other bit. */
  lemma {:induction false} RemoveBitAt(x: nat, k: nat, j: nat)
    requires Bit(x, k)
    ensures x >= Pow2(k)
    ensures Bit(x - Pow2(k), j) == (j != k && Bit(x, j))
  {
    if k == 0 {
      if j > 0 {
        assert (x - 1) / 2 == x / 2;
      }
    } else {
      RemoveBitAt(x / 2, k - 1, if j > 0 then j - 1 else 0);
      assert (x - Pow2(k)) / 2 == x / 2 - Pow2(k - 1);
    }
  }

  /** Setting a clear bit below position n keeps a number below 2^n. */
  lemma {:induction false} AddBitBound(x: nat, k: nat, n: nat)
    requires x < Pow2(n) && k < n && !Bit(x, k)
    ensures x + Pow2(k) < Pow2(n)
  {
    var q := Pow2(n - 1);
    assert Pow2(n) == 2 * q;
    if k == 0 {
      assert x % 2 == 0;
    } else {
      var h, p := x / 2, Pow2(k - 1);
      assert x <= 2 * h + 1 && h < q;
      assert !Bit(h, k - 1);
      AddBitBound(h, k - 1, n - 1);
      assert Pow2(k) == 2 * p;
    }
  }

  /**
   * The recursive bit agrees with the test the flag predicates perform: `(x & (1 << k)) != 0`
   * holds exactly when the k-th binary digit of x, `(x >> k) & 1`, is one.
   */
  lemma {:induction false} BitIsMaskTest(x: nat, k: nat)
    ensures Bit(x, k) <==> x / Pow2(k) % 2 == 1
  {
    if k > 0 {
      BitIsMaskTest(x / 2, k - 1);
      HalveThenDivide(x, Pow2(k - 1));
    }
  }

  /** Shifting right by one and then by n more is shifting right by n + 1. */
  lemma HalveThenDivide(x: nat, p: nat)
    requires p > 0
    ensures x / 2 / p == x / (2 * p)
  {
    var h, q := x / 2, x / 2 / p;
    var r1, r2 := x % 2, h % p;
    assert x == 2 * h + r1;
    assert h == p * q + r2;
    assert x == (2 * p) * q + (2 * r2 + r1);
    QuotientUnique(x, 2 * p, q, 2 * r2 + r1);
  }

  /** A quotient with a remainder in range is the quotient. */
  lemma QuotientUnique(x: nat, d: nat, q: nat, r: nat)
    requires 0 <= r < d && x == d * q + r
    ensures x / d == q
  {
    var q', r' := x / d, x % d;
    assert x == d * q' + r';
    if q' > q {
      var k := q' - q;
      assert d * q' == d * q + d * k;
      AtLeastOneMultiple(d, k);
    } else if q' < q {
      var k := q - q';
      assert d * q == d * q' + d * k;
      AtLeastOneMultiple(d, k);
    }
  }

  /** A positive multiple of d is at least d. */
  lemma {:induction false} AtLeastOneMultiple(d: nat, k: nat)
    requires k >= 1
    ensures d * k >= d
  {
    if k > 1 {
      AtLeastOneMultiple(d, k - 1);
      assert d * k == d * (k - 1) + d;
    }
  }

  /** The four flag positions are distinct bits of a 32-bit word. */
  lemma StatusLayout()
    ensures CARRY_BIT < 32 && ZERO_BIT < 32 && SIGN_BIT < 32 && OVERFLOW_BIT < 32
    ensures CARRY_BIT != ZERO_BIT && CARRY_BIT != SIGN_BIT && CARRY_BIT != OVERFLOW_BIT
    ensures ZERO_BIT != SIGN_BIT && ZERO_BIT != OVERFLOW_BIT && SIGN_BIT != OVERFLOW_BIT
  {
  }
}
