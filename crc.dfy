/** The reflected CRC-32 of IEEE 802.3 (section 3.2.9, Frame Check Sequence):
    polynomial 0xEDB88320, register preset to 0xFFFFFFFF and complemented at the
    end. This module holds the bitwise reference definition and its algebra:
    linearity over XOR, concatenation, and resuming from a finished checksum. */
module Crc {
  import opened Iteration

  /** The reflected generator polynomial. */
  const POLY: bv32 := 0xEDB8_8320

  /** The register preset, which is also the final complement mask. */
  const ONES: bv32 := 0xFFFF_FFFF

  /** Exclusive or; every XOR of the model goes through this one function. */
  function Xor(a: bv32, b: bv32): bv32 { a ^ b }

  /** One register step for a zero input bit: shift right, and fold the
      polynomial in when the bit shifted out was set. */
  function ShiftBit(c: bv32): bv32
  {
    if c & 1 == 1 then (c >> 1) ^ POLY else c >> 1
  }

  /** The register after k zero bits. */
  function ZeroBits(k: nat, c: bv32): bv32 { Iterate(k, ShiftBit, c) }

  /** The register after one zero byte: what one table entry stands for. */
  function ZeroByte(c: bv32): bv32 { ZeroBits(8, c) }

  /** The register after n zero bytes. */
  function ZeroBytes(n: nat, c: bv32): bv32 { Iterate(n, ZeroByte, c) }

  /** Feeding one byte: XOR it into the low end, then eight bit steps. */
  function ByteStep(c: bv32, b: bv8): bv32 { ZeroBits(8, Xor(c, b as bv32)) }

  /** The register after feeding `data` from register c, bitwise. */
  function Reg(c: bv32, data: seq<bv8>): bv32 { Fold(ByteStep, c, data) }

  /** The CRC-32 of `data` (the value of zlib's `crc32` and Python's `zlib.crc32`). */
  function Crc32(data: seq<bv8>): bv32 { Xor(Reg(ONES, data), ONES) }

  // ---------------------------------------------------------------------------
  // XOR algebra, stated once over the named function.

  lemma XorAssoc()
    ensures forall a, b, c :: Xor(Xor(a, b), c) == Xor(a, Xor(b, c))
  {
  }

  lemma XorComm()
    ensures forall a, b :: Xor(a, b) == Xor(b, a)
  {
  }

  lemma XorSelf()
    ensures forall a, b :: Xor(Xor(a, b), b) == a
  {
  }

  lemma XorSwap(u: bv32, v: bv32, w: bv32)
    ensures Xor(Xor(u, v), w) == Xor(Xor(u, w), v)
  {
    XorAssoc();
    XorComm();
  }

  lemma XorUndo(a: bv32, b: bv32)
    ensures Xor(b, Xor(a, b)) == a
  {
    XorComm();
    XorSelf();
  }

  // ---------------------------------------------------------------------------
  // Linearity.

  lemma ShiftBitLinear(x: bv32, y: bv32)
    ensures ShiftBit(x ^ y) == ShiftBit(x) ^ ShiftBit(y)
  {
    if x & 1 == 1 {
      assert (x ^ y) & 1 == 1 - (y & 1);
    }
  }

  lemma ShiftBitAdditive()
    ensures forall a, b :: ShiftBit(Xor(a, b)) == Xor(ShiftBit(a), ShiftBit(b))
  {
    forall a, b ensures ShiftBit(Xor(a, b)) == Xor(ShiftBit(a), ShiftBit(b)) {
      ShiftBitLinear(a, b);
    }
  }

  /** Zero bits act linearly on the register. */
  lemma ZeroBitsLinear(k: nat, x: bv32, y: bv32)
    ensures ZeroBits(k, Xor(x, y)) == Xor(ZeroBits(k, x), ZeroBits(k, y))
  {
    ShiftBitAdditive();
    IterateAdditive(k, ShiftBit, Xor, x, y);
  }

  /** n zero bytes are 8 * n zero bits. */
  lemma ZeroBytesAreBits(n: nat, c: bv32)
    ensures ZeroBytes(n, c) == ZeroBits(8 * n, c)
  {
    IterateNest(n, 8, ShiftBit, ZeroByte, c);
  }

  lemma ByteStepShift(u: bv32, v: bv32, b: bv8)
    ensures ByteStep(Xor(u, v), b) == Xor(ByteStep(u, b), ZeroByte(v))
  {
    XorSwap(u, v, b as bv32);
    ZeroBitsLinear(8, Xor(u, b as bv32), v);
  }

  /** A difference y in the starting register reaches the end of s as y
      followed by |s| zero bytes, whatever the bytes of s are. */
  lemma RegLinear(x: bv32, y: bv32, s: seq<bv8>)
    ensures Reg(Xor(x, y), s) == Xor(Reg(x, s), ZeroBytes(|s|, y))
  {
    forall u, v, b ensures ByteStep(Xor(u, v), b) == Xor(ByteStep(u, b), ZeroByte(v)) {
      ByteStepShift(u, v, b);
    }
    FoldShift(ByteStep, Xor, ZeroByte, x, y, s);
  }

  lemma RegAppend(c: bv32, s: seq<bv8>, t: seq<bv8>)
    ensures Reg(c, s + t) == Reg(Reg(c, s), t)
  {
    FoldAppend(ByteStep, c, s, t);
  }

  lemma RegSnoc(c: bv32, s: seq<bv8>, b: bv8)
    ensures Reg(c, s + [b]) == ByteStep(Reg(c, s), b)
  {
    FoldSnoc(ByteStep, c, s, b);
  }

  /** The checksum of a concatenation from the checksums of its parts: the
      identity behind zlib's `crc32_combine`. */
  lemma CrcConcat(h: seq<bv8>, l: seq<bv8>)
    ensures Crc32(h + l) == Xor(Crc32(l), ZeroBytes(|l|, Crc32(h)))
  {
    RegAppend(ONES, h, l);
    XorUndo(Reg(ONES, h), ONES);
    RegLinear(ONES, Crc32(h), l);
    XorSwap(Reg(ONES, l), ZeroBytes(|l|, Crc32(h)), ONES);
  }

  // ---------------------------------------------------------------------------
  // Resuming a finished checksum (crc32_append in test_crc.c).

  /** Undo the final complement of crc1, feed `data`, complement again. */
  function Extend(crc1: bv32, data: seq<bv8>): bv32
  {
    Xor(Reg(Xor(crc1, ONES), data), ONES)
  }

  /** Extending the checksum of h by l is the checksum of h + l. */
  lemma ExtendConcat(h: seq<bv8>, l: seq<bv8>)
    ensures Extend(Crc32(h), l) == Crc32(h + l)
  {
    XorSelf();
    RegAppend(ONES, h, l);
  }

  /** Extending by nothing gives crc1 back. */
  lemma ExtendEmpty(crc1: bv32)
    ensures Extend(crc1, []) == crc1
  {
    XorSelf();
  }

  /** The checksum of the empty string is 0. */
  lemma Crc32Empty()
    ensures Crc32([]) == 0
  {
    XorSelf();
  }
}
