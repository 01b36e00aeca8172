/**
 * Bit reversal of a 32-bit word, which carries each CRC convention into the
 * other: the bit-reflected polynomial drives the little-endian register the
 * way the natural one drives the big-endian register, bit for bit reversed.
 */
module Reflect {
  import Le = CrcLittleEndian
  import Be = CrcBigEndian

  /** Bit `k` of the result is bit `31 - k` of `x`: swap bits, pairs, nibbles, bytes, halves. */
  function Reverse32(x: bv32): bv32 {
    var a := ((x >> 1) & 0x5555_5555) | ((x & 0x5555_5555) << 1);
    var b := ((a >> 2) & 0x3333_3333) | ((a & 0x3333_3333) << 2);
    var c := ((b >> 4) & 0x0f0f_0f0f) | ((b & 0x0f0f_0f0f) << 4);
    var d := ((c >> 8) & 0x00ff_00ff) | ((c & 0x00ff_00ff) << 8);
    (d >> 16) | (d << 16)
  }

  /** Bit `k` of the reversal is bit `31 - k` of the word. */
  lemma ReverseBit(x: bv32, k: bv32)
    requires k < 32
    ensures (Reverse32(x) >> k) & 1 == (x >> (31 - k)) & 1
  {}

  /** Reversing twice is the identity. */
  lemma ReverseInvolution(x: bv32)
    ensures Reverse32(Reverse32(x)) == x
  {}

  /** The Ethernet CRC-32 polynomial, natural and bit-reflected. */
  lemma EthernetReflected()
    ensures Reverse32(0x04c1_1db7) == 0xedb8_8320
  {}

  /** The Castagnoli CRC-32C polynomial, natural and bit-reflected. */
  lemma CastagnoliReflected()
    ensures Reverse32(0x1edc_6f41) == 0x82f6_3b78
  {}

  // How reversal meets the operations of one bit step.

  lemma ReverseXor(a: bv32, b: bv32)
    ensures Reverse32(a ^ b) == Reverse32(a) ^ Reverse32(b)
  {}

  lemma ReverseShift(c: bv32)
    ensures Reverse32(c << 1) == Reverse32(c) >> 1
  {}

  lemma ReverseTop(c: bv32)
    ensures (c & 0x8000_0000 != 0) == (Reverse32(c) & 1 != 0)
  {}

  lemma ReverseZero()
    ensures Reverse32(0) == 0
  {}

  /** A big-endian bit step, reversed, is a little-endian bit step on the reversed polynomial. */
  lemma StepMirror(poly: bv32, c: bv32)
    ensures Le.Step(Reverse32(poly), Reverse32(c)) == Reverse32(Be.Step(poly, c))
  {
    var f := if c & 0x8000_0000 != 0 then poly else 0;
    ReverseXor(c << 1, f);
    ReverseShift(c);
    ReverseTop(c);
    ReverseZero();
  }

  /** The same for a whole byte of zeros. */
  lemma ShiftByteMirror(poly: bv32, c: bv32)
    ensures Le.ShiftByte(Reverse32(poly), Reverse32(c)) == Reverse32(Be.ShiftByte(poly, c))
  {
    var c1 := Be.Step(poly, c);
    var c2 := Be.Step(poly, c1);
    var c3 := Be.Step(poly, c2);
    var c4 := Be.Step(poly, c3);
    var c5 := Be.Step(poly, c4);
    var c6 := Be.Step(poly, c5);
    var c7 := Be.Step(poly, c6);
    StepMirror(poly, c);
    StepMirror(poly, c1);
    StepMirror(poly, c2);
    StepMirror(poly, c3);
    StepMirror(poly, c4);
    StepMirror(poly, c5);
    StepMirror(poly, c6);
    StepMirror(poly, c7);
  }

  /** The index a byte value takes in the other convention: its eight bits reversed. */
  function Reflect8(x: bv32): (y: bv32)
    requires x < 256
    ensures y < 256
  {
    ReverseTopByte(x);
    Reverse32(x << 24)
  }

  /** A byte at the top of a word reverses into the low byte. */
  lemma ReverseTopByte(x: bv32)
    requires x < 256
    ensures Reverse32(x << 24) < 256
  {}

  /**
   * Every big-endian table entry, bit-reversed, is the little-endian entry
   * of the reversed polynomial at the bit-reversed index.
   */
  lemma {:induction false} EntryMirror(poly: bv32, x: bv32, r: nat)
    requires x < 256
    ensures Le.Entry(Reverse32(poly), Reflect8(x), r) == Reverse32(Be.Entry(poly, x, r))
    decreases r
  {
    if r == 0 {
      ShiftByteMirror(poly, x << 24);
    } else {
      EntryMirror(poly, x, r - 1);
      ShiftByteMirror(poly, Be.Entry(poly, x, r - 1));
    }
  }
}
