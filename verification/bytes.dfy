/** Bytes, the fixed sizes of the cipher (implementation.h) and the
    fixed-length byte strings built from them. */
module Bytes {
  import opened Arithmetic

  /** uint8_t. Sums that the source lets wrap are reduced modulo 256 explicitly. */
  newtype uint8 = x: int | 0 <= x < 256

  /** Exclusive or of the low w bits of a and b, taken bit by bit from the
      least significant one. */
  function XorBits(a: nat, b: nat, w: nat): (r: nat)
    ensures r < Pow2(w)
    decreases w
  {
    if w == 0 then 0
    else (if a % 2 == b % 2 then 0 else 1) + 2 * XorBits(a / 2, b / 2, w - 1)
  }

  /** Bits in a uint8_t. */
  const ByteBits: nat := 8

  lemma ByteBitsRange()
    ensures Pow2(ByteBits) == 256
  {
  }

  /** The C `^` on two uint8_t values. */
  function XorByte(a: uint8, b: uint8): uint8
  {
    ByteBitsRange();
    XorBits(a as nat, b as nat, ByteBits) as uint8
  }

  /** Exclusive or with the same bits twice gives the w-bit value back. */
  lemma {:induction false} XorBitsTwice(a: nat, b: nat, w: nat)
    requires a < Pow2(w)
    ensures XorBits(XorBits(a, b, w), b, w) == a
    decreases w
  {
    if w > 0 {
      var rest := XorBits(a / 2, b / 2, w - 1);
      var r := XorBits(a, b, w);
      var bit := if a % 2 == b % 2 then 0 else 1;
      assert r == bit + 2 * rest;
      assert r % 2 == bit && r / 2 == rest;
      XorBitsTwice(a / 2, b / 2, w - 1);
      assert XorBits(r, b, w) == (if bit == b % 2 then 0 else 1) + 2 * (a / 2);
    }
  }

  /** Exclusive or with the same byte twice is the identity. */
  lemma XorByteTwice(a: uint8, b: uint8)
    ensures XorByte(XorByte(a, b), b) == a
  {
    ByteBitsRange();
    XorBitsTwice(a as nat, b as nat, ByteBits);
  }

  /** BLOCK_SIZE: one cipher block. */
  const BlockSize: nat := 8

  /** HALF_BLOCK_SIZE bytes: one Feistel half. */
  type Half = s: seq<uint8> | |s| == 4 witness [0, 0, 0, 0]
  /** BLOCK_SIZE bytes. */
  type Block = s: seq<uint8> | |s| == 8 witness [0, 0, 0, 0, 0, 0, 0, 0]
  /** KEY_SIZE bytes: the SHA-256 digest the tables are derived from. */
  type Key = s: seq<uint8> | |s| == 32 witness seq(32, _ => 0)
  /** S_BOX_SIZE bytes. */
  type SBox = s: seq<uint8> | |s| == 256 witness seq(256, _ => 0)
  /** NUMBER_OF_S_BOXES tables, one per round (NUMBER_OF_ROUNDS): table r is
      used by round r. All of them hold 16 * 256 = 4096 bytes, the value taken
      for NUMBER_OF_BYTES_IN_ALL_S_BOXES. */
  type SBoxSet = s: seq<SBox> | |s| == 16 witness seq(16, _ => seq(256, _ => 0 as uint8))
}
