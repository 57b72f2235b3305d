/**
 * The unsigned integer widths of the emulator (uint8_t, uint32_t, uint64_t), the little-endian
 * byte order of x86 memory (least significant byte at the lowest address) and the two's
 * complement reading of a byte or a dword.
 *
 * Values are unbounded integers restricted to their width; the C shift and mask operators on
 * unsigned operands are written as their arithmetic equivalents: `v >> 8*i` is `v / 256^i`,
 * `v & 0xFF` is `v % 256`, `b << 8*i` is `b * 256^i`.
 */
module Bytes {

  type u8 = x: int | 0 <= x < 0x100
  type u32 = x: int | 0 <= x < 0x1_0000_0000
  type u64 = x: int | 0 <= x < 0x1_0000_0000_0000_0000

  /** Truncation to 32 bits: C's unsigned 32-bit arithmetic wraps modulo 2^32. */
  function Wrap32(x: int): (r: u32)
    ensures (r - x) % 0x1_0000_0000 == 0
  {
    x % 0x1_0000_0000
  }

  /** Truncation to 64 bits: C's unsigned 64-bit arithmetic wraps modulo 2^64. */
  function Wrap64(x: int): (r: u64)
    ensures (r - x) % 0x1_0000_0000_0000_0000 == 0
  {
    x % 0x1_0000_0000_0000_0000
  }

  /** Moving a 32-bit value down by d and back up, both modulo 2^32, gives it back. */
  lemma WrapDownUp(x: u32, d: nat)
    ensures Wrap32(Wrap32(x - d) + d) == x
  {
  }

  /** 256^n, the weight of byte n of a little-endian number. */
  function Pow256(n: nat): (p: nat)
    ensures p > 0
  {
    if n == 0 then 1 else 0x100 * Pow256(n - 1)
  }

  /** The number whose little-endian encoding is `bs`: byte 0 is the least significant. */
  function LittleEndian(bs: seq<u8>): nat
  {
    if bs == [] then 0 else bs[0] + 0x100 * LittleEndian(bs[1..])
  }

  /** Byte `i` of `v` in little-endian order, the C expression `(v >> (i * 8)) & 0xFF`. */
  function ByteOf(v: nat, i: nat): u8
  {
    (v / Pow256(i)) % 0x100
  }

  /** The four bytes of a dword, least significant first. */
  function Encode32(v: u32): (bs: seq<u8>)
    ensures |bs| == 4 && LittleEndian(bs) == v
  {
    var bs := [ByteOf(v, 0), ByteOf(v, 1), ByteOf(v, 2), ByteOf(v, 3)];
    LittleEndian4(bs);
    DwordBytes(v);
    bs
  }

  /** Bytes 0 and 1 of a number are its remainder modulo 256 and the remainder of its quotient by 256. */
  lemma LowBytes(v: nat)
    ensures ByteOf(v, 0) == v % 0x100 && ByteOf(v, 1) == v / 0x100 % 0x100
  {
    assert Pow256(1) == 0x100;
  }

  /** A dword is the weighted sum of its four bytes. */
  lemma DwordBytes(v: u32)
    ensures v == ByteOf(v, 0) as int + 0x100 * ByteOf(v, 1) as int + 0x1_0000 * ByteOf(v, 2) as int
                 + 0x100_0000 * ByteOf(v, 3) as int
  {
    assert Pow256(1) == 0x100 && Pow256(2) == 0x1_0000 && Pow256(3) == 0x100_0000;
    assert v / 0x100 / 0x100 == v / 0x1_0000;
    assert v / 0x1_0000 / 0x100 == v / 0x100_0000;
  }

  /** The value of four little-endian bytes as a weighted sum. */
  lemma LittleEndian4(bs: seq<u8>)
    requires |bs| == 4
    ensures LittleEndian(bs) == bs[0] as int + 0x100 * bs[1] as int + 0x1_0000 * bs[2] as int + 0x100_0000 * bs[3] as int
  {
    assert bs[3..][1..] == [];
    assert LittleEndian(bs[3..]) == bs[3] as int;
    assert bs[2..][1..] == bs[3..];
    assert LittleEndian(bs[2..]) == bs[2] as int + 0x100 * bs[3] as int;
    assert bs[1..][1..] == bs[2..];
    assert LittleEndian(bs[1..]) == bs[1] as int + 0x100 * bs[2] as int + 0x1_0000 * bs[3] as int;
  }

  /** n bytes encode a number below 256^n. */
  lemma {:induction false} LittleEndianBound(bs: seq<u8>)
    ensures LittleEndian(bs) < Pow256(|bs|)
  {
    if bs != [] {
      LittleEndianBound(bs[1..]);
    }
  }

  /** Appending a byte adds it at the next weight: the step of a loop that assembles a number byte by byte. */
  lemma {:induction false} LittleEndianSnoc(bs: seq<u8>, b: u8)
    ensures LittleEndian(bs + [b]) == LittleEndian(bs) + b * Pow256(|bs|)
  {
    if bs != [] {
      assert (bs + [b])[1..] == bs[1..] + [b];
      LittleEndianSnoc(bs[1..], b);
      assert b * Pow256(|bs|) == 0x100 * (b * Pow256(|bs| - 1));
    }
  }

  /** Decoding then encoding four bytes gives them back: the encoding is one-to-one. */
  lemma EncodeLittleEndian(bs: seq<u8>)
    requires |bs| == 4
    ensures LittleEndian(bs) < 0x1_0000_0000
    ensures Encode32(LittleEndian(bs)) == bs
  {
    LittleEndian4(bs);
    var v := LittleEndian(bs);
    Digits(v, bs[0], bs[1], bs[2], bs[3]);
    assert Pow256(1) == 0x100 && Pow256(2) == 0x1_0000 && Pow256(3) == 0x100_0000;
    assert ByteOf(v, 0) == bs[0] && ByteOf(v, 1) == bs[1] && ByteOf(v, 2) == bs[2] && ByteOf(v, 3) == bs[3];
  }

  /** The base-256 digits of a four-digit number. */
  lemma Digits(v: int, b0: u8, b1: u8, b2: u8, b3: u8)
    requires v == b0 as int + 0x100 * b1 as int + 0x1_0000 * b2 as int + 0x100_0000 * b3 as int
    ensures v < 0x1_0000_0000
    ensures v % 0x100 == b0 && v / 0x100 % 0x100 == b1 && v / 0x1_0000 % 0x100 == b2 && v / 0x100_0000 % 0x100 == b3
  {
    assert v / 0x100 == b1 as int + 0x100 * b2 as int + 0x1_0000 * b3 as int;
    assert v / 0x1_0000 == b2 as int + 0x100 * b3 as int;
    assert v / 0x100_0000 == b3 as int;
  }

  /** The signed 8-bit value with the same bit pattern as the byte `b` (C's `(int8_t)b`). */
  function Signed8(b: u8): (r: int)
    ensures -0x80 <= r < 0x80
    ensures r % 0x100 == b
  {
    if b < 0x80 then b else b - 0x100
  }

  /** The signed 32-bit value with the same bit pattern as `v` (C's `(int32_t)v`). */
  function Signed32(v: u32): (r: int)
    ensures -0x8000_0000 <= r < 0x8000_0000
    ensures r % 0x1_0000_0000 == v
  {
    if v < 0x8000_0000 then v else v - 0x1_0000_0000
  }
}
