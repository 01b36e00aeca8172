/**
 * The little-endian (bit-reflected) CRC-32 that the little-endian tables
 * accelerate. The least significant bit of the register holds the highest
 * power of x, so a bit step shifts right and folds the polynomial in when
 * the bit shifted out is set; a data byte enters at the low end.
 */
module CrcLittleEndian {
  import opened Bits

  /** One bit of polynomial division: `crc = (crc >> 1) ^ ((crc & 1) ? poly : 0)`. */
  function Step(poly: bv32, crc: bv32): bv32 {
    (crc >> 1) ^ (if crc & 1 != 0 then poly else 0)
  }

  /** Eight bit steps: the register after one more byte of zeros. */
  function ShiftByte(poly: bv32, crc: bv32): bv32 {
    Step(poly, Step(poly, Step(poly, Step(poly,
      Step(poly, Step(poly, Step(poly, Step(poly, crc))))))))
  }

  /** Bit-at-a-time update of the register by one data byte. */
  function Update(poly: bv32, crc: bv32, b: bv8): bv32 {
    ShiftByte(poly, crc ^ b as bv32)
  }

  /** Bit-at-a-time CRC of a byte string, from the register value `crc`. */
  function Crc(poly: bv32, crc: bv32, data: seq<bv8>): bv32
    decreases |data|
  {
    if data == [] then crc else Crc(poly, Update(poly, crc, data[0]), data[1..])
  }

  /**
   * What the generator stores at `tab[r][x]` for a byte value `x`: the
   * register `x` shifted through a byte of zeros, then `r` more.
   */
  function Entry(poly: bv32, x: bv32, r: nat): bv32
    decreases r
  {
    if r == 0 then ShiftByte(poly, x) else ShiftByte(poly, Entry(poly, x, r - 1))
  }

  // One bit step is linear over GF(2); split on the two bits that pick the polynomial.

  lemma StepLinearOdd(poly: bv32, a: bv32, b: bv32)
    requires a & 1 != 0 && b & 1 != 0
    ensures Step(poly, a ^ b) == Step(poly, a) ^ Step(poly, b)
  {}

  lemma StepLinearMixed(poly: bv32, a: bv32, b: bv32)
    requires a & 1 != 0 && b & 1 == 0
    ensures Step(poly, a ^ b) == Step(poly, a) ^ Step(poly, b)
  {}

  lemma StepLinearEven(poly: bv32, a: bv32, b: bv32)
    requires a & 1 == 0 && b & 1 == 0
    ensures Step(poly, a ^ b) == Step(poly, a) ^ Step(poly, b)
  {}

  lemma StepLinear(poly: bv32, a: bv32, b: bv32)
    ensures Step(poly, Xor(a, b)) == Xor(Step(poly, a), Step(poly, b))
  {
    hide *;
    XorIsXor(a, b);
    XorIsXor(Step(poly, a), Step(poly, b));
    if a & 1 != 0 {
      if b & 1 != 0 { StepLinearOdd(poly, a, b); } else { StepLinearMixed(poly, a, b); }
    } else if b & 1 != 0 {
      StepLinearMixed(poly, b, a);
      XorCommutes(a, b);
      XorCommutes(Step(poly, a), Step(poly, b));
    } else {
      StepLinearEven(poly, a, b);
    }
  }

  lemma ShiftByteLinearXor(poly: bv32, a: bv32, b: bv32)
    ensures ShiftByte(poly, Xor(a, b)) == Xor(ShiftByte(poly, a), ShiftByte(poly, b))
  {
    var a0, b0 := a, b;
    StepLinear(poly, a0, b0);
    var a1, b1 := Step(poly, a0), Step(poly, b0);
    StepLinear(poly, a1, b1);
    var a2, b2 := Step(poly, a1), Step(poly, b1);
    StepLinear(poly, a2, b2);
    var a3, b3 := Step(poly, a2), Step(poly, b2);
    StepLinear(poly, a3, b3);
    var a4, b4 := Step(poly, a3), Step(poly, b3);
    StepLinear(poly, a4, b4);
    var a5, b5 := Step(poly, a4), Step(poly, b4);
    StepLinear(poly, a5, b5);
    var a6, b6 := Step(poly, a5), Step(poly, b5);
    StepLinear(poly, a6, b6);
    var a7, b7 := Step(poly, a6), Step(poly, b6);
    StepLinear(poly, a7, b7);
  }

  /** Shifting a byte of zeros through the register is linear over GF(2). */
  lemma ShiftByteLinear(poly: bv32, a: bv32, b: bv32)
    ensures ShiftByte(poly, a ^ b) == ShiftByte(poly, a) ^ ShiftByte(poly, b)
  {
    ShiftByteLinearXor(poly, a, b);
    assert Xor(a, b) == a ^ b;
    assert Xor(ShiftByte(poly, a), ShiftByte(poly, b)) == ShiftByte(poly, a) ^ ShiftByte(poly, b);
  }

  lemma StepEven(poly: bv32, c: bv32)
    requires c & 1 == 0
    ensures Step(poly, c) == c >> 1
  {}

  /** With a zero low byte no step folds the polynomial in. */
  lemma ShiftByteHigh(poly: bv32, c: bv32)
    requires c & 0xff == 0
    ensures ShiftByte(poly, c) == c >> 8
  {
    var c1 := Step(poly, c);
    StepEven(poly, c);
    var c2 := Step(poly, c1);
    StepEven(poly, c1);
    var c3 := Step(poly, c2);
    StepEven(poly, c2);
    var c4 := Step(poly, c3);
    StepEven(poly, c3);
    var c5 := Step(poly, c4);
    StepEven(poly, c4);
    var c6 := Step(poly, c5);
    StepEven(poly, c5);
    var c7 := Step(poly, c6);
    StepEven(poly, c6);
    StepEven(poly, c7);
  }

  lemma ShiftByteFoldXor(poly: bv32, c: bv32)
    ensures ShiftByte(poly, c) == Xor(ShiftByte(poly, c & 0xff), c >> 8)
  {
    var hi := SplitLowByte(c);
    ShiftByteLinearXor(poly, c & 0xff, hi);
    ShiftByteHigh(poly, hi);
  }

  /** A byte shift is a table lookup on the low byte plus a plain shift of the rest. */
  lemma ShiftByteFold(poly: bv32, c: bv32)
    ensures ShiftByte(poly, c) == ShiftByte(poly, c & 0xff) ^ (c >> 8)
  {
    ShiftByteFoldXor(poly, c);
  }

  /** Halving an even register commutes with the byte shift, one step later. */
  lemma ShiftByteHalf(poly: bv32, c: bv32)
    requires c & 1 == 0
    ensures Step(poly, ShiftByte(poly, c)) == ShiftByte(poly, c >> 1)
  {
    StepEven(poly, c);
  }

  lemma {:induction false} CrcAppend(poly: bv32, crc: bv32, a: seq<bv8>, b: seq<bv8>)
    ensures Crc(poly, crc, a + b) == Crc(poly, Crc(poly, crc, a), b)
    decreases |a|
  {
    if a != [] {
      assert (a + b)[1..] == a[1..] + b;
      CrcAppend(poly, Update(poly, crc, a[0]), a[1..], b);
    } else {
      assert a + b == b;
    }
  }

  lemma UpdateZero(poly: bv32, crc: bv32)
    ensures Update(poly, crc, 0) == ShiftByte(poly, crc)
  {
    assert crc ^ (0 as bv8) as bv32 == crc;
  }

  lemma CrcZeroByte(poly: bv32, crc: bv32)
    ensures Crc(poly, crc, [0]) == ShiftByte(poly, crc)
  {
    UpdateZero(poly, crc);
    assert [0 as bv8][1..] == [];
  }

  lemma UpdateFromZero(poly: bv32, b: bv8)
    ensures Update(poly, 0, b) == ShiftByte(poly, b as bv32)
  {
    assert 0 ^ b as bv32 == b as bv32;
  }

  /** Entry `r` of byte `b` is the CRC, from a zero register, of `b` followed by `r` zero bytes. */
  lemma {:induction false} EntryIsCrc(poly: bv32, b: bv8, r: nat)
    ensures Entry(poly, b as bv32, r) == Crc(poly, 0, [b] + Zeros(r))
    decreases r
  {
    if r == 0 {
      assert [b] + Zeros(0) == [b];
      assert [b][1..] == [];
      UpdateFromZero(poly, b);
    } else {
      EntryIsCrc(poly, b, r - 1);
      assert [b] + Zeros(r) == ([b] + Zeros(r - 1)) + [0];
      CrcAppend(poly, 0, [b] + Zeros(r - 1), [0]);
      CrcZeroByte(poly, Entry(poly, b as bv32, r - 1));
    }
  }

  lemma EntryLinearStep(poly: bv32, a: bv32, b: bv32, r: nat)
    requires Entry(poly, Xor(a, b), r) == Xor(Entry(poly, a, r), Entry(poly, b, r))
    ensures Entry(poly, Xor(a, b), r + 1) == Xor(Entry(poly, a, r + 1), Entry(poly, b, r + 1))
  {
    ShiftByteLinearXor(poly, Entry(poly, a, r), Entry(poly, b, r));
  }

  lemma {:induction false} EntryLinearXor(poly: bv32, a: bv32, b: bv32, r: nat)
    ensures Entry(poly, Xor(a, b), r) == Xor(Entry(poly, a, r), Entry(poly, b, r))
    decreases r
  {
    if r == 0 {
      ShiftByteLinearXor(poly, a, b);
    } else {
      EntryLinearXor(poly, a, b, r - 1);
      EntryLinearStep(poly, a, b, r - 1);
    }
  }

  /** Every row of the table is linear over GF(2) in the index. */
  lemma EntryLinear(poly: bv32, a: bv32, b: bv32, r: nat)
    ensures Entry(poly, a ^ b, r) == Entry(poly, a, r) ^ Entry(poly, b, r)
  {
    EntryLinearXor(poly, a, b, r);
  }

  /** Index 0 holds 0 in every row. */
  lemma EntryZero(poly: bv32, r: nat)
    ensures Entry(poly, 0, r) == 0
  {
    EntryLinear(poly, 0, 0, r);
  }

  lemma ShiftByteRowXor(poly: bv32, c: bv32)
    ensures ShiftByte(poly, c) == Xor(Entry(poly, c & 0xff, 0), c >> 8)
  {
    ShiftByteFoldXor(poly, c);
  }

  lemma EntryRowXor(poly: bv32, x: bv32, r: nat, c: bv32, t: bv32)
    requires c == Entry(poly, x, r)
    requires t == Entry(poly, c & 0xff, 0)
    ensures Entry(poly, x, r + 1) == Xor(t, c >> 8)
  {
    ShiftByteRowXor(poly, c);
  }

  /**
   * Row `r + 1` from row `r` and row 0: with `c` the entry above and `t`
   * the row-0 entry at the low byte of `c`, the entry is `t ^ (c >> 8)`.
   */
  lemma EntryRow(poly: bv32, x: bv32, r: nat, c: bv32, t: bv32)
    requires c == Entry(poly, x, r)
    requires t == Entry(poly, c & 0xff, 0)
    ensures Entry(poly, x, r + 1) == t ^ (c >> 8)
  {
    EntryRowXor(poly, x, r, c, t);
    XorShiftRight(t, c);
  }

  lemma Row0Xor(poly: bv32, i: bv32, j: bv32, crc: bv32, t: bv32)
    requires i & j == 0
    requires crc == Entry(poly, i, 0) && t == Entry(poly, j, 0)
    ensures Entry(poly, i + j, 0) == Xor(crc, t)
  {
    DisjointAdd(i, j);
    ShiftByteLinearXor(poly, i, j);
  }

  /**
   * Row 0 at a sum of disjoint indices from its two parts: the step the
   * generator's halving loop takes.
   */
  lemma Row0(poly: bv32, i: bv32, j: bv32, crc: bv32, t: bv32)
    requires i & j == 0
    requires crc == Entry(poly, i, 0) && t == Entry(poly, j, 0)
    ensures Entry(poly, i + j, 0) == crc ^ t
  {
    Row0Xor(poly, i, j, crc, t);
    XorIsXor(crc, t);
  }

  /**
   * The register the halving loop starts from, 1, is the row-0 entry of
   * the index 256 just past the table.
   */
  lemma EntryPastTable(poly: bv32)
    ensures Entry(poly, 256, 0) == 1
  {
    ShiftByteHigh(poly, 256);
  }

  /**
   * The register of the halving loop: one bit step takes the entry at
   * `2 * i` to the entry at `i`.
   */
  lemma HalvingStep(poly: bv32, i: bv32, crc: bv32)
    requires i < 0x8000_0000 && crc == Entry(poly, 2 * i, 0)
    ensures (crc >> 1) ^ (if crc & 1 != 0 then poly else 0) == Entry(poly, i, 0)
  {
    HalvingStepAsStep(poly, i, crc);
    StepDef(poly, crc);
  }

  lemma HalvingStepAsStep(poly: bv32, i: bv32, crc: bv32)
    requires i < 0x8000_0000 && crc == Entry(poly, 2 * i, 0)
    ensures Step(poly, crc) == Entry(poly, i, 0)
  {
    ShiftByteHalf(poly, 2 * i);
  }

  /** Row 0 holds eight bit steps of the byte itself. */
  lemma EntryFirst(poly: bv32, x: bv32)
    ensures Entry(poly, x, 0) == ShiftByte(poly, x)
  {}

  lemma StepDef(poly: bv32, crc: bv32)
    ensures Step(poly, crc) == (crc >> 1) ^ (if crc & 1 != 0 then poly else 0)
  {}
}
