/**
 * Bit-level helpers shared by both CRC conventions.
 *
 * `Xor` is exclusive or under a name of its own: stating the chained
 * linearity steps in terms of it lets each step be matched by name, and a
 * one-line lemma turns the result back into `^`.
 */
module Bits {
  function Xor(a: bv32, b: bv32): bv32 { a ^ b }

  lemma XorIsXor(a: bv32, b: bv32)
    ensures Xor(a, b) == a ^ b
  {}

  lemma XorCommutes(a: bv32, b: bv32)
    ensures a ^ b == b ^ a
  {}

  lemma XorShiftRight(a: bv32, c: bv32)
    ensures Xor(a, c >> 8) == a ^ (c >> 8)
  {}

  lemma XorShiftLeft(a: bv32, c: bv32)
    ensures Xor(a, c << 8) == a ^ (c << 8)
  {}

  /** The low byte and the rest of a word as two disjoint parts. */
  lemma SplitLowByte(c: bv32) returns (hi: bv32)
    ensures Xor(c & 0xff, hi) == c && hi & 0xff == 0 && hi >> 8 == c >> 8
  {
    hi := c & 0xffff_ff00;
  }

  /** The top byte and the rest of a word as two disjoint parts. */
  lemma SplitTopByte(c: bv32) returns (lo: bv32)
    ensures Xor(c & 0xff00_0000, lo) == c && lo & 0xff00_0000 == 0 && lo << 8 == c << 8
  {
    lo := c & 0x00ff_ffff;
  }

  /** Adding two words with no bit in common is exclusive or. */
  lemma DisjointAdd(a: bv32, b: bv32)
    requires a & b == 0
    ensures a + b == Xor(a, b)
  {}

  /** A run of `n` zero bytes. */
  function Zeros(n: nat): (z: seq<bv8>)
    ensures |z| == n && forall k :: 0 <= k < n ==> z[k] == 0
  {
    seq(n, _ => 0)
  }

  /** An index below 256, held in an unsigned word, as an array position. */
  function Ix(x: bv32): (k: int)
    requires x < 256
    ensures 0 <= k < 256
  {
    (x as bv8) as int
  }

  /** Exclusive or keeps two byte values below 256. */
  lemma XorBelow(a: bv32, b: bv32)
    requires a < 256 && b < 256
    ensures a ^ b < 256
  {}

  /** A byte widened to a word sits at its own array position. */
  lemma IxByte(b: bv8)
    ensures b as bv32 < 256 && Ix(b as bv32) == b as int
  {}

  /** The low byte of a word, `c & 0xff`: the little-endian table index. */
  function LowByte(c: bv32): (b: bv32)
    ensures b < 256
  {
    c & 0xff
  }

  /** The top byte of a word, `(c >> 24) & 0xff`: the big-endian table index. */
  function TopByte(c: bv32): (b: bv32)
    ensures b < 256
  {
    (c >> 24) & 0xff
  }

  lemma IxZero()
    ensures Ix(0) == 0
  {}

  lemma ByteToIntInjective(a: bv8, b: bv8)
    requires a != b
    ensures a as int != b as int
  {}

  /** Distinct indices are distinct array positions. */
  lemma IxInjective(x: bv32, y: bv32)
    requires x < 256 && y < 256 && x != y
    ensures Ix(x) != Ix(y)
  {
    ByteToIntInjective(x as bv8, y as bv8);
  }

  lemma LowByteIs(c: bv32)
    ensures LowByte(c) == c & 0xff
  {}

  lemma TopByteIs(c: bv32)
    ensures TopByte(c) == (c >> 24) & 0xff
  {}
}
