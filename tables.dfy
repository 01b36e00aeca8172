/**
 * What a finished table holds, stated on the array the generators fill:
 * the zero entry, the linearity of row 0, each entry as the CRC of one
 * byte followed by zero bytes, the row derivation the second phase relies
 * on, and the mirror between the two conventions.
 *
 * Every proof names the entries it needs through `LeTableAt`/`BeTableAt`
 * and then argues about `Entry` alone.
 */
module CrcTables {
  import opened Bits
  import opened GenCrc32Table
  import Le = CrcLittleEndian
  import Be = CrcBigEndian
  import Reflect

  /** The entry of the zero byte is zero, in every row. */
  lemma LeTableZero(polynomial: bv32, tab: array2<bv32>, r: nat)
    requires LeTable(polynomial, tab) && r < 8
    ensures At(tab, r, 0) == 0
  {
    hide *;
    TableDims();
    LeTableAt(polynomial, tab, r, 0);
    Le.EntryZero(polynomial, r);
  }

  /**
   * Every row is linear: the entry of `a ^ b` is the xor of the entries of
   * `a` and `b`. Row 0 is the case the halving loop builds on.
   */
  lemma LeTableLinear(polynomial: bv32, tab: array2<bv32>, r: nat, a: bv32, b: bv32)
    requires LeTable(polynomial, tab)
    requires r < 8 && a < 256 && b < 256
    ensures a ^ b < 256
    ensures At(tab, r, a ^ b) == Xor(At(tab, r, a), At(tab, r, b))
  {
    hide *;
    TableDims();
    XorBelow(a, b);
    LeTableAt(polynomial, tab, r, a);
    LeTableAt(polynomial, tab, r, b);
    LeTableAt(polynomial, tab, r, a ^ b);
    XorIsXor(a, b);
    Le.EntryLinearXor(polynomial, a, b, r);
  }

  /**
   * Entry `tab[r][b]` is the bit-at-a-time CRC of the byte `b` followed by
   * `r` zero bytes; in row 0 that is eight bit steps from `b`.
   */
  lemma LeTableCrc(polynomial: bv32, tab: array2<bv32>, b: bv8, r: nat)
    requires LeTable(polynomial, tab)
    requires r < 8
    ensures At(tab, r, b as bv32) == Le.Crc(polynomial, 0, [b] + Zeros(r))
    ensures r == 0 ==> At(tab, 0, b as bv32) == Le.ShiftByte(polynomial, b as bv32)
  {
    hide *;
    TableDims();
    IxByte(b);
    LeTableAt(polynomial, tab, r, b as bv32);
    Le.EntryIsCrc(polynomial, b, r);
    Le.EntryFirst(polynomial, b as bv32);
  }

  /**
   * Each row after the first is the row before pushed through one more
   * zero byte by way of row 0: `tab[0][c & 0xff] ^ (c >> 8)` for the entry
   * `c` above it.
   */
  lemma LeTableRowDerivation(polynomial: bv32, tab: array2<bv32>, r: nat, x: bv32)
    requires LeTable(polynomial, tab)
    requires 1 <= r < 8 && x < 256
    ensures At(tab, r, x) == Xor(At(tab, 0, LowByte(At(tab, r - 1, x))), At(tab, r - 1, x) >> 8)
  {
    hide *;
    TableDims();
    var c := Le.Entry(polynomial, x, r - 1);
    var t := Le.Entry(polynomial, LowByte(c), 0);
    LeTableAt(polynomial, tab, r - 1, x);
    LeTableAt(polynomial, tab, r, x);
    LeTableAt(polynomial, tab, 0, LowByte(c));
    LowByteIs(c);
    Le.EntryRowXor(polynomial, x, r - 1, c, t);
  }

  /** The entry of the zero byte is zero, in every row. */
  lemma BeTableZero(polynomial: bv32, tab: array2<bv32>, r: nat)
    requires BeTable(polynomial, tab) && r < 8
    ensures At(tab, r, 0) == 0
  {
    hide *;
    TableDims();
    BeTableAt(polynomial, tab, r, 0);
    Be.EntryZero(polynomial, r);
  }

  /**
   * Every row is linear: the entry of `a ^ b` is the xor of the entries of
   * `a` and `b`. Row 0 is the case the halving loop builds on.
   */
  lemma BeTableLinear(polynomial: bv32, tab: array2<bv32>, r: nat, a: bv32, b: bv32)
    requires BeTable(polynomial, tab)
    requires r < 8 && a < 256 && b < 256
    ensures a ^ b < 256
    ensures At(tab, r, a ^ b) == Xor(At(tab, r, a), At(tab, r, b))
  {
    hide *;
    TableDims();
    XorBelow(a, b);
    BeTableAt(polynomial, tab, r, a);
    BeTableAt(polynomial, tab, r, b);
    BeTableAt(polynomial, tab, r, a ^ b);
    XorIsXor(a, b);
    Be.EntryLinearXor(polynomial, a, b, r);
  }

  /**
   * Entry `tab[r][b]` is the bit-at-a-time CRC of the byte `b` followed by
   * `r` zero bytes; in row 0 that is eight bit steps from `b << 24`.
   */
  lemma BeTableCrc(polynomial: bv32, tab: array2<bv32>, b: bv8, r: nat)
    requires BeTable(polynomial, tab)
    requires r < 8
    ensures At(tab, r, b as bv32) == Be.Crc(polynomial, 0, [b] + Zeros(r))
    ensures r == 0 ==> At(tab, 0, b as bv32) == Be.ShiftByte(polynomial, (b as bv32) << 24)
  {
    hide *;
    TableDims();
    IxByte(b);
    BeTableAt(polynomial, tab, r, b as bv32);
    Be.EntryIsCrc(polynomial, b, r);
    Be.EntryFirst(polynomial, b as bv32);
  }

  /**
   * Each row after the first is the row before pushed through one more
   * zero byte by way of row 0: `tab[0][(c >> 24) & 0xff] ^ (c << 8)` for
   * the entry `c` above it.
   */
  lemma BeTableRowDerivation(polynomial: bv32, tab: array2<bv32>, r: nat, x: bv32)
    requires BeTable(polynomial, tab)
    requires 1 <= r < 8 && x < 256
    ensures At(tab, r, x) == Xor(At(tab, 0, TopByte(At(tab, r - 1, x))), At(tab, r - 1, x) << 8)
  {
    hide *;
    TableDims();
    var c := Be.Entry(polynomial, x, r - 1);
    var t := Be.Entry(polynomial, TopByte(c), 0);
    BeTableAt(polynomial, tab, r - 1, x);
    BeTableAt(polynomial, tab, r, x);
    BeTableAt(polynomial, tab, 0, TopByte(c));
    TopByteIs(c);
    Be.EntryRowXor(polynomial, x, r - 1, c, t);
  }

  /**
   * A little-endian table of the reflected polynomial is the big-endian
   * table of the natural one with every entry and every index bit-reversed.
   */
  lemma TablesMirror(polynomial: bv32, le: array2<bv32>, be: array2<bv32>, r: nat, x: bv32)
    requires LeTable(Reflect.Reverse32(polynomial), le)
    requires BeTable(polynomial, be)
    requires r < 8 && x < 256
    ensures At(le, r, Reflect.Reflect8(x)) == Reflect.Reverse32(At(be, r, x))
  {
    hide *;
    TableDims();
    LeTableAt(Reflect.Reverse32(polynomial), le, r, Reflect.Reflect8(x));
    BeTableAt(polynomial, be, r, x);
    Reflect.EntryMirror(polynomial, x, r);
  }

  /** The two CRC-32 tables mirror each other, since the constants do. */
  lemma Crc32TablesMirror(le: array2<bv32>, be: array2<bv32>, r: nat, x: bv32)
    requires LeTable(CrcPolyLe, le)
    requires BeTable(CrcPolyBe, be)
    requires r < 8 && x < 256
    ensures At(le, r, Reflect.Reflect8(x)) == Reflect.Reverse32(At(be, r, x))
  {
    Reflect.EthernetReflected();
    TablesMirror(CrcPolyBe, le, be, r, x);
  }

  /** The two CRC-32C tables mirror each other, since the constants do. */
  lemma Crc32cTablesMirror(le: array2<bv32>, be: array2<bv32>, r: nat, x: bv32)
    requires LeTable(Crc32cPolyLe, le)
    requires BeTable(Crc32cPolyBe, be)
    requires r < 8 && x < 256
    ensures At(le, r, Reflect.Reflect8(x)) == Reflect.Reverse32(At(be, r, x))
  {
    Reflect.CastagnoliReflected();
    TablesMirror(Crc32cPolyBe, le, be, r, x);
  }
}
