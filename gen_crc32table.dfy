/**
 * The slicing-by-8 table generator: the polynomial constants, the table
 * geometry chosen by the bits-at-a-time configuration, and the two
 * generators with their four fixed-polynomial wrappers.
 */
module GenCrc32Table {
  import opened Bits
  import Le = CrcLittleEndian
  import Be = CrcBigEndian

  /** Bit-reflected and natural forms of the Ethernet CRC-32 polynomial. */
  const CrcPolyLe: bv32 := 0xedb8_8320
  const CrcPolyBe: bv32 := 0x04c1_1db7

  /** Natural and bit-reflected forms of the Castagnoli CRC-32C polynomial. */
  const Crc32cPolyBe: bv32 := 0x1edc_6f41
  const Crc32cPolyLe: bv32 := 0x82f6_3b78

  /** How many data bits each table step consumes. */
  const CrcLeBits: nat := 64
  const CrcBeBits: nat := 64

  /** Rows of a table: one per byte of a step, at least one. */
  function TableRows(bits: nat): nat {
    if bits > 8 then bits / 8 else 1
  }

  /** Entries per row: 256 for byte steps and wider, one per bit pattern below that. */
  function TableSize(bits: nat): bv32 {
    if bits > 8 then 256 else 1 << bits
  }

  const LeTableRows: nat := TableRows(CrcLeBits)
  const LeTableSize: bv32 := TableSize(CrcLeBits)
  const BeTableRows: nat := TableRows(CrcBeBits)
  const BeTableSize: bv32 := TableSize(CrcBeBits)

  /** With 64 bits at a time, both tables are eight rows of 256 entries. */
  lemma TableDims()
    ensures LeTableRows == 8 && LeTableSize == 256
    ensures BeTableRows == 8 && BeTableSize == 256
  {}

  /** Entry `x` of row `r` of a 256-column table. */
  ghost function At(tab: array2<bv32>, r: int, x: bv32): bv32
    reads tab
    requires 0 <= r < tab.Length0 && tab.Length1 == 256 && x < 256
  {
    tab[r, Ix(x)]
  }

  /**
   * `tab` holds the little-endian table of `polynomial`: eight rows of 256
   * entries, row `r` at index `x` being the register `x` pushed through
   * `r + 1` bytes of zeros.
   */
  ghost predicate LeTable(polynomial: bv32, tab: array2<bv32>)
    reads tab
  {
    tab.Length0 == LeTableRows && tab.Length1 == 256 &&
    forall r: int, x: bv32 :: 0 <= r < LeTableRows && x < 256 ==>
      At(tab, r, x) == Le.Entry(polynomial, x, r)
  }

  /** The same for the big-endian table, the register starting from `x << 24`. */
  ghost predicate BeTable(polynomial: bv32, tab: array2<bv32>)
    reads tab
  {
    tab.Length0 == BeTableRows && tab.Length1 == 256 &&
    forall r: int, x: bv32 :: 0 <= r < BeTableRows && x < 256 ==>
      At(tab, r, x) == Be.Entry(polynomial, x, r)
  }

  lemma LeTableIntro(polynomial: bv32, tab: array2<bv32>)
    requires tab.Length0 == LeTableRows && tab.Length1 == 256
    requires forall r: int, x: bv32 :: 0 <= r < LeTableRows && x < 256 ==>
      tab[r, Ix(x)] == Le.Entry(polynomial, x, r)
    ensures LeTable(polynomial, tab)
  {}

  lemma BeTableIntro(polynomial: bv32, tab: array2<bv32>)
    requires tab.Length0 == BeTableRows && tab.Length1 == 256
    requires forall r: int, x: bv32 :: 0 <= r < BeTableRows && x < 256 ==>
      tab[r, Ix(x)] == Be.Entry(polynomial, x, r)
    ensures BeTable(polynomial, tab)
  {}

  /** One entry of a finished little-endian table. */
  lemma LeTableAt(polynomial: bv32, tab: array2<bv32>, r: int, x: bv32)
    requires LeTable(polynomial, tab) && 0 <= r < LeTableRows && x < 256
    ensures tab.Length0 == LeTableRows && tab.Length1 == 256
    ensures At(tab, r, x) == Le.Entry(polynomial, x, r)
  {}

  /** One entry of a finished big-endian table. */
  lemma BeTableAt(polynomial: bv32, tab: array2<bv32>, r: int, x: bv32)
    requires BeTable(polynomial, tab) && 0 <= r < BeTableRows && x < 256
    ensures tab.Length0 == BeTableRows && tab.Length1 == 256
    ensures At(tab, r, x) == Be.Entry(polynomial, x, r)
  {}

  /** The powers of two the halving and doubling loops run through. */
  predicate SmallPow2(i: bv32) {
    0 < i < 256 && i & (i - 1) == 0
  }

  /**
   * Row-0 indices the halving loop has written once it is at `i` and `j`:
   * those with no bit below `2 * i`, and those whose lowest bit is `i` and
   * whose higher bits are below `j`.
   */
  predicate LeWritten(i: bv32, j: bv32, x: bv32)
    requires SmallPow2(i)
  {
    x & (2 * i - 1) == 0 || (x & (2 * i - 1) == i && x < j)
  }

  /** The slot `i + j` of the halving loop, and the next `j`. */
  lemma LeSlot(i: bv32, j: bv32)
    requires SmallPow2(i) && j < 256 && j & (2 * i - 1) == 0
    ensures i & j == 0 && i + j < 256 && j < j + 2 * i <= 256 && (j + 2 * i) & (2 * i - 1) == 0
  {}

  lemma LeWrittenNext(i: bv32, j: bv32, j': bv32, x: bv32)
    requires SmallPow2(i) && j < 256 && j & (2 * i - 1) == 0
    requires j' == j + 2 * i && LeWritten(i, j', x)
    ensures LeWritten(i, j, x) || x == i + j
  {}

  /** Halving a power of two above 1 gives a power of two of which it is the double. */
  lemma HalvePow2(i: bv32)
    requires SmallPow2(i)
    ensures i >> 1 < i
    ensures (i == 1 && i >> 1 == 0) || (i != 1 && SmallPow2(i >> 1) && 2 * (i >> 1) == i)
  {}

  lemma LeWrittenStart(i: bv32, x: bv32)
    requires SmallPow2(i) && LeWritten(i, 0, x)
    ensures x & (2 * i - 1) == 0
  {}

  lemma LeWrittenBase(i: bv32, j: bv32, x: bv32)
    requires SmallPow2(i) && x & (2 * i - 1) == 0
    ensures LeWritten(i, j, x)
  {}

  lemma LeWrittenEnd(i: bv32, j: bv32, x: bv32)
    requires SmallPow2(i) && j >= 256 && x < 256
    requires x & (2 * i - 1) == 0 || x & (2 * i - 1) == i
    ensures LeWritten(i, j, x)
  {}

  /** What pass `i` of the halving loop leaves written, in the terms of pass `i >> 1`. */
  lemma LeWrittenHalve(i: bv32, x: bv32)
    requires SmallPow2(i) && x < 256
    requires i == 1 || x & (2 * (i >> 1) - 1) == 0
    ensures x & (2 * i - 1) == 0 || x & (2 * i - 1) == i
  {}

  /** The halving loop starts at the top bit of a byte, the doubling loop at the bottom one. */
  lemma Pow2Ends()
    ensures SmallPow2(128) && SmallPow2(1)
  {}

  /**
   * One pass of the halving loop for the bit `i`: given the entries with no
   * bit below `2 * i` and `crc`, the entry of `i`, fill in every index whose
   * lowest set bit is `i`, as `tab[i + j] = crc ^ tab[j]`.
   */
  method LeHalvingPass(polynomial: bv32, tab: array2<bv32>, i: bv32, crc: bv32)
    requires tab.Length0 == LeTableRows && tab.Length1 == 256
    requires SmallPow2(i) && crc == Le.Entry(polynomial, i, 0)
    requires forall x: bv32 :: x < 256 && x & (2 * i - 1) == 0 ==>
      tab[0, Ix(x)] == Le.Entry(polynomial, x, 0)
    modifies tab
    ensures forall x: bv32 :: x < 256 && (x & (2 * i - 1) == 0 || x & (2 * i - 1) == i) ==>
      tab[0, Ix(x)] == Le.Entry(polynomial, x, 0)
  {
    hide *;
    TableDims();
    var j: bv32 := 0;
    forall x: bv32 | x < 256 && LeWritten(i, j, x)
      ensures tab[0, Ix(x)] == Le.Entry(polynomial, x, 0)
    {
      LeWrittenStart(i, x);
    }
    while j < LeTableSize
      invariant j <= 256 && j & (2 * i - 1) == 0
      invariant forall x: bv32 :: x < 256 && LeWritten(i, j, x) ==>
        tab[0, Ix(x)] == Le.Entry(polynomial, x, 0)
      decreases 256 - j
    {
      LeSlot(i, j);
      LeWrittenBase(i, j, j);
      var t := tab[0, Ix(j)];
      Le.Row0(polynomial, i, j, crc, t);
      tab[0, Ix(i + j)] := crc ^ t;
      var j' := j + 2 * i;
      forall x: bv32 | x < 256 && LeWritten(i, j', x)
        ensures tab[0, Ix(x)] == Le.Entry(polynomial, x, 0)
      {
        LeWrittenNext(i, j, j', x);
        if x != i + j {
          IxInjective(x, i + j);
        }
      }
      j := j';
    }
    forall x: bv32 | x < 256 && (x & (2 * i - 1) == 0 || x & (2 * i - 1) == i)
      ensures tab[0, Ix(x)] == Le.Entry(polynomial, x, 0)
    {
      LeWrittenEnd(i, j, x);
    }
  }

  /** Row 0 of the little-endian table: the CRC of each single byte. */
  method LeFillRow0(polynomial: bv32, tab: array2<bv32>)
    requires tab.Length0 == LeTableRows && tab.Length1 == 256
    modifies tab
    ensures forall x: bv32 :: x < 256 ==> tab[0, Ix(x)] == Le.Entry(polynomial, x, 0)
  {
    hide *;
    TableDims();
    var crc: bv32 := 1;
    tab[0, 0] := 0;
    IxZero();
    Le.EntryZero(polynomial, 0);
    Le.EntryPastTable(polynomial);
    Pow2Ends();
    var i: bv32 := LeTableSize >> 1;
    while i != 0
      invariant i == 0 || SmallPow2(i)
      invariant i != 0 ==> crc == Le.Entry(polynomial, 2 * i, 0)
      invariant forall x: bv32 :: x < 256 && (i == 0 || x & (2 * i - 1) == 0) ==>
        tab[0, Ix(x)] == Le.Entry(polynomial, x, 0)
      decreases i
    {
      Le.HalvingStep(polynomial, i, crc);
      crc := (crc >> 1) ^ (if crc & 1 != 0 then polynomial else 0);
      LeHalvingPass(polynomial, tab, i, crc);
      forall x: bv32 | x < 256 && (i == 1 || x & (2 * (i >> 1) - 1) == 0)
        ensures tab[0, Ix(x)] == Le.Entry(polynomial, x, 0)
      {
        LeWrittenHalve(i, x);
      }
      HalvePow2(i);
      i := i >> 1;
    }
  }

  /**
   * Column `i` of rows 1 and up: each entry is the previous row's entry
   * pushed through one more zero byte, `tab[0][c & 0xff] ^ (c >> 8)`.
   */
  method LeFillColumn(polynomial: bv32, tab: array2<bv32>, i: bv32)
    requires tab.Length0 == LeTableRows && tab.Length1 == 256 && i < 256
    requires forall x: bv32 :: x < 256 ==> tab[0, Ix(x)] == Le.Entry(polynomial, x, 0)
    modifies tab
    ensures forall r: int :: 1 <= r < LeTableRows ==> tab[r, Ix(i)] == Le.Entry(polynomial, i, r)
    ensures forall r: int, k: int :: 0 <= r < LeTableRows && 0 <= k < 256 && (r == 0 || k != Ix(i)) ==>
      tab[r, k] == old(tab[r, k])
  {
    hide *;
    TableDims();
    var crc := tab[0, Ix(i)];
    var j := 1;
    while j < LeTableRows
      invariant 1 <= j <= LeTableRows
      invariant crc == Le.Entry(polynomial, i, j - 1)
      invariant forall r: int :: 1 <= r < j ==> tab[r, Ix(i)] == Le.Entry(polynomial, i, r)
      invariant forall r: int, k: int :: 0 <= r < LeTableRows && 0 <= k < 256 && (r == 0 || r >= j || k != Ix(i)) ==>
        tab[r, k] == old(tab[r, k])
    {
      var t := tab[0, Ix(crc & 0xff)];
      Le.EntryRow(polynomial, i, j - 1, crc, t);
      crc := t ^ (crc >> 8);
      tab[j, Ix(i)] := crc;
      j := j + 1;
    }
  }

  /**
   * The generic little-endian generator: the single-byte CRCs in row 0,
   * then each further row one zero byte on from the row before.
   */
  method Crc32InitLeGeneric(polynomial: bv32, tab: array2<bv32>)
    requires tab.Length0 == LeTableRows && tab.Length1 == 256
    modifies tab
    ensures LeTable(polynomial, tab)
  {
    hide *;
    TableDims();
    LeFillRow0(polynomial, tab);
    var i: bv32 := 0;
    while i < LeTableSize
      invariant i <= 256
      invariant forall x: bv32 :: x < 256 ==> tab[0, Ix(x)] == Le.Entry(polynomial, x, 0)
      invariant forall r: int, x: bv32 :: 1 <= r < LeTableRows && x < i ==>
        tab[r, Ix(x)] == Le.Entry(polynomial, x, r)
      decreases 256 - i
    {
      LeFillColumn(polynomial, tab, i);
      var i' := i + 1;
      forall r: int, x: bv32 | 1 <= r < LeTableRows && x < i'
        ensures tab[r, Ix(x)] == Le.Entry(polynomial, x, r)
      {
        ColumnNext(x, i, i');
        if x != i {
          IxInjective(x, i);
        }
      }
      i := i';
    }
    LeTableIntro(polynomial, tab);
  }

  /**
   * Row-0 indices the doubling loop has written: those below `n`. This is
   * `x < n` under a name that `hide *` keeps opaque, so that the loop's
   * bit-vector order facts are used only through the small lemmas below.
   */
  predicate Below(x: bv32, n: bv32) {
    x < n
  }

  lemma BelowStart(x: bv32, i: bv32, j: bv32)
    requires j == 0 && Below(x, i + j)
    ensures Below(x, i)
  {}

  lemma BelowSlot(i: bv32, j: bv32)
    requires SmallPow2(i) && j < i
    ensures Below(j, i + j)
  {}

  lemma BelowEnd(x: bv32, i: bv32, j: bv32)
    requires SmallPow2(i) && j == i && Below(x, i << 1)
    ensures Below(x, i + j)
  {}

  lemma BelowAll(x: bv32, n: bv32)
    requires n == 256 && x < 256
    ensures Below(x, n)
  {}

  lemma BelowOne(x: bv32, n: bv32)
    requires n == 1 && Below(x, n)
    ensures x == 0
  {}

  lemma BelowSucc(x: bv32, i: bv32, j: bv32)
    requires i < 256 && j < i && x < i + (j + 1)
    ensures x < i + j || x == i + j
  {}

  /** One more step of the doubling pass adds exactly the slot `i + j`. */
  lemma BelowNext(x: bv32, i: bv32, j: bv32, j': bv32)
    requires SmallPow2(i) && j < i && j' == j + 1 && Below(x, i + j')
    ensures Below(x, i + j) || x == i + j
  {
    BelowSucc(x, i, j);
  }

  /** The doubling pass starts at `j = 0`, below `i`. */
  lemma BeStart(i: bv32)
    requires SmallPow2(i)
    ensures 0 < i && i + 0 == i
  {}

  /** The slot `i + j` of the doubling loop, for `j` below `i`. */
  lemma BeSlot(i: bv32, j: bv32)
    requires SmallPow2(i) && j < i
    ensures i & j == 0 && j < i + j < 256 && (j + 1 < i || j + 1 == i)
    ensures i - (j + 1) < i - j
  {}

  /** The doubling loop ends with its mask at 256. */
  lemma Pow2Exit(i: bv32)
    requires (i == 256 || SmallPow2(i)) && !(i < 256)
    ensures i == 256
  {}

  /** The columns below `i + 1` are those below `i` and `i` itself. */
  lemma ColumnNext(x: bv32, i: bv32, i': bv32)
    requires i < 256 && i' == i + 1 && x < i'
    ensures x < i || x == i
  {}

  /** Doubling a power of two below 256 gives 256 or another one. */
  lemma DoublePow2(i: bv32)
    requires SmallPow2(i)
    ensures i << 1 == 256 || SmallPow2(i << 1)
    ensures i < i << 1 <= 256 && i << 1 == i + i
    ensures i << 1 < 256 <==> i < 128
  {}

  /**
   * One pass of the doubling loop for the bit `i`: given the entries below
   * `i` and `crc`, the entry of `i`, fill in every index whose highest set
   * bit is `i`, as `tab[i + j] = crc ^ tab[j]`.
   */
  method BeDoublingPass(polynomial: bv32, tab: array2<bv32>, i: bv32, crc: bv32)
    requires tab.Length0 == BeTableRows && tab.Length1 == 256
    requires SmallPow2(i) && crc == Be.Entry(polynomial, i, 0)
    requires forall x: bv32 :: x < 256 && Below(x, i) ==> tab[0, Ix(x)] == Be.Entry(polynomial, x, 0)
    modifies tab
    ensures forall x: bv32 :: x < 256 && Below(x, i << 1) ==> tab[0, Ix(x)] == Be.Entry(polynomial, x, 0)
  {
    hide *;
    TableDims();
    BeStart(i);
    var j: bv32 := 0;
    forall x: bv32 | x < 256 && Below(x, i + j)
      ensures tab[0, Ix(x)] == Be.Entry(polynomial, x, 0)
    {
      BelowStart(x, i, j);
    }
    while j < i
      invariant j < i || j == i
      invariant forall x: bv32 :: x < 256 && Below(x, i + j) ==> tab[0, Ix(x)] == Be.Entry(polynomial, x, 0)
      decreases i - j
    {
      BeSlot(i, j);
      BelowSlot(i, j);
      var t := tab[0, Ix(j)];
      Be.Row0(polynomial, i, j, crc, t);
      tab[0, Ix(i + j)] := crc ^ t;
      var j' := j + 1;
      forall x: bv32 | x < 256 && Below(x, i + j')
        ensures tab[0, Ix(x)] == Be.Entry(polynomial, x, 0)
      {
        BelowNext(x, i, j, j');
        if x != i + j {
          IxInjective(x, i + j);
        }
      }
      j := j';
    }
    assert j == i;
    forall x: bv32 | x < 256 && Below(x, i << 1)
      ensures tab[0, Ix(x)] == Be.Entry(polynomial, x, 0)
    {
      BelowEnd(x, i, j);
    }
  }

  /** Row 0 of the big-endian table: the CRC of each single byte. */
  method BeFillRow0(polynomial: bv32, tab: array2<bv32>)
    requires tab.Length0 == BeTableRows && tab.Length1 == 256
    modifies tab
    ensures forall x: bv32 :: x < 256 ==> tab[0, Ix(x)] == Be.Entry(polynomial, x, 0)
  {
    hide *;
    TableDims();
    var crc: bv32 := 0x8000_0000;
    tab[0, 0] := 0;
    IxZero();
    Be.EntryZero(polynomial, 0);
    Be.DoublingStart(polynomial);
    Pow2Ends();
    var i: bv32 := 1;
    forall x: bv32 | x < 256 && Below(x, i)
      ensures tab[0, Ix(x)] == Be.Entry(polynomial, x, 0)
    {
      BelowOne(x, i);
    }
    while i < BeTableSize
      invariant i == 256 || SmallPow2(i)
      invariant i < 256 ==> Be.Step(polynomial, crc) == Be.Entry(polynomial, i, 0)
      invariant forall x: bv32 :: x < 256 && Below(x, i) ==> tab[0, Ix(x)] == Be.Entry(polynomial, x, 0)
      decreases 256 - i
    {
      Be.StepDef(polynomial, crc);
      crc := (crc << 1) ^ (if crc & 0x8000_0000 != 0 then polynomial else 0);
      BeDoublingPass(polynomial, tab, i, crc);
      DoublePow2(i);
      if i < 128 {
        Be.DoublingStepAsStep(polynomial, i, crc);
      }
      i := i << 1;
    }
    Pow2Exit(i);
    forall x: bv32 | x < 256
      ensures tab[0, Ix(x)] == Be.Entry(polynomial, x, 0)
    {
      BelowAll(x, i);
    }
  }

  /**
   * Column `i` of rows 1 and up: each entry is the previous row's entry
   * pushed through one more zero byte, `tab[0][(c >> 24) & 0xff] ^ (c << 8)`.
   */
  method BeFillColumn(polynomial: bv32, tab: array2<bv32>, i: bv32)
    requires tab.Length0 == BeTableRows && tab.Length1 == 256 && i < 256
    requires forall x: bv32 :: x < 256 ==> tab[0, Ix(x)] == Be.Entry(polynomial, x, 0)
    modifies tab
    ensures forall r: int :: 1 <= r < BeTableRows ==> tab[r, Ix(i)] == Be.Entry(polynomial, i, r)
    ensures forall r: int, k: int :: 0 <= r < BeTableRows && 0 <= k < 256 && (r == 0 || k != Ix(i)) ==>
      tab[r, k] == old(tab[r, k])
  {
    hide *;
    TableDims();
    var crc := tab[0, Ix(i)];
    var j := 1;
    while j < BeTableRows
      invariant 1 <= j <= BeTableRows
      invariant crc == Be.Entry(polynomial, i, j - 1)
      invariant forall r: int :: 1 <= r < j ==> tab[r, Ix(i)] == Be.Entry(polynomial, i, r)
      invariant forall r: int, k: int :: 0 <= r < BeTableRows && 0 <= k < 256 && (r == 0 || r >= j || k != Ix(i)) ==>
        tab[r, k] == old(tab[r, k])
    {
      var t := tab[0, Ix((crc >> 24) & 0xff)];
      Be.EntryRow(polynomial, i, j - 1, crc, t);
      crc := t ^ (crc << 8);
      tab[j, Ix(i)] := crc;
      j := j + 1;
    }
  }

  /**
   * The generic big-endian generator: the single-byte CRCs in row 0,
   * then each further row one zero byte on from the row before.
   */
  method Crc32InitBeGeneric(polynomial: bv32, tab: array2<bv32>)
    requires tab.Length0 == BeTableRows && tab.Length1 == 256
    modifies tab
    ensures BeTable(polynomial, tab)
  {
    hide *;
    TableDims();
    BeFillRow0(polynomial, tab);
    var i: bv32 := 0;
    while i < BeTableSize
      invariant i <= 256
      invariant forall x: bv32 :: x < 256 ==> tab[0, Ix(x)] == Be.Entry(polynomial, x, 0)
      invariant forall r: int, x: bv32 :: 1 <= r < BeTableRows && x < i ==>
        tab[r, Ix(x)] == Be.Entry(polynomial, x, r)
      decreases 256 - i
    {
      BeFillColumn(polynomial, tab, i);
      var i' := i + 1;
      forall r: int, x: bv32 | 1 <= r < BeTableRows && x < i'
        ensures tab[r, Ix(x)] == Be.Entry(polynomial, x, r)
      {
        ColumnNext(x, i, i');
        if x != i {
          IxInjective(x, i);
        }
      }
      i := i';
    }
    BeTableIntro(polynomial, tab);
  }

  /** The CRC-32 tables for bit-reflected input, as the wrapper fills them. */
  method Crc32InitLe() returns (tab: array2<bv32>)
    ensures fresh(tab) && LeTable(CrcPolyLe, tab)
  {
    tab := new bv32[LeTableRows, 256];
    Crc32InitLeGeneric(CrcPolyLe, tab);
  }

  /** The CRC-32C tables for bit-reflected input. */
  method Crc32cInitLe() returns (tab: array2<bv32>)
    ensures fresh(tab) && LeTable(Crc32cPolyLe, tab)
  {
    tab := new bv32[LeTableRows, 256];
    Crc32InitLeGeneric(Crc32cPolyLe, tab);
  }

  /** The CRC-32 tables for input in natural bit order. */
  method Crc32InitBe() returns (tab: array2<bv32>)
    ensures fresh(tab) && BeTable(CrcPolyBe, tab)
  {
    tab := new bv32[BeTableRows, 256];
    Crc32InitBeGeneric(CrcPolyBe, tab);
  }

  /** The CRC-32C tables for input in natural bit order. */
  method Crc32cInitBe() returns (tab: array2<bv32>)
    ensures fresh(tab) && BeTable(Crc32cPolyBe, tab)
  {
    tab := new bv32[BeTableRows, 256];
    Crc32InitBeGeneric(Crc32cPolyBe, tab);
  }

  // The row-0 write schedules: every index from 1 to 255 is written by
  // exactly one slot `i + j`, and its source `j` is written before it.
  // These lemmas are about the slot arithmetic; the loop bounds of the
  // halving pass (`j` steps by `2 * i` below 256) and of the doubling pass
  // (`j` below `i`) are what make the slots those of the loops. The pass
  // methods themselves argue through `LeWritten` and `Below`.

  /** The lowest set bit of a halving-loop slot is the pass's bit `i`. */
  lemma LowBitOfSlot(i: bv32, j: bv32)
    requires SmallPow2(i) && j < 256 && j & (2 * i - 1) == 0
    ensures (i + j) & (0 - (i + j)) == i
  {}

  /** Every nonzero byte is the slot of its lowest set bit `i` and a multiple `j` of `2 * i`. */
  lemma LeSlotOf(x: bv32) returns (i: bv32, j: bv32)
    requires 0 < x < 256
    ensures SmallPow2(i) && j < 256 && j & (2 * i - 1) == 0 && x == i + j
  {
    i := x & (0 - x);
    j := x - i;
  }

  /** No index is the slot of two passes, or of two steps of one pass. */
  lemma LeSlotUnique(i1: bv32, j1: bv32, i2: bv32, j2: bv32)
    requires SmallPow2(i1) && j1 < 256 && j1 & (2 * i1 - 1) == 0
    requires SmallPow2(i2) && j2 < 256 && j2 & (2 * i2 - 1) == 0
    requires i1 + j1 == i2 + j2
    ensures i1 == i2 && j1 == j2
  {
    LowBitOfSlot(i1, j1);
    LowBitOfSlot(i2, j2);
  }

  /**
   * The source `j` of a slot is 0 or has its lowest set bit above `i`, so
   * an earlier pass of the halving loop wrote it.
   */
  lemma LeSourceEarlier(i: bv32, j: bv32)
    requires SmallPow2(i) && j < 256 && j & (2 * i - 1) == 0
    ensures j == 0 || j & (0 - j) > i
  {}

  /** Every nonzero byte is the slot of its highest set bit `i` and a smaller `j`. */
  lemma BeSlotOf(x: bv32) returns (i: bv32, j: bv32)
    requires 0 < x < 256
    ensures SmallPow2(i) && j < i && x == i + j
  {
    i := if x >= 128 then 128 else if x >= 64 then 64 else if x >= 32 then 32
      else if x >= 16 then 16 else if x >= 8 then 8 else if x >= 4 then 4
      else if x >= 2 then 2 else 1;
    j := x - i;
  }

  /** A doubling-loop slot of the bit `i` lies in `[i, 2 * i)`. */
  lemma BeSlotRange(i: bv32, j: bv32)
    requires SmallPow2(i) && j < i
    ensures i <= i + j < 2 * i
  {}

  /** Of two distinct powers of two, the larger is at least twice the smaller. */
  lemma Pow2Order(a: bv32, b: bv32)
    requires SmallPow2(a) && SmallPow2(b) && a < b
    ensures 2 * a <= b
  {}

  /**
   * No index is the slot of two passes, or of two steps of one pass; the
   * source `j < i` lies below the pass's range, in an earlier pass or at 0.
   */
  lemma BeSlotUnique(i1: bv32, j1: bv32, i2: bv32, j2: bv32)
    requires SmallPow2(i1) && j1 < i1
    requires SmallPow2(i2) && j2 < i2
    requires i1 + j1 == i2 + j2
    ensures i1 == i2 && j1 == j2
  {
    BeSlotRange(i1, j1);
    BeSlotRange(i2, j2);
    if i1 < i2 {
      Pow2Order(i1, i2);
    } else if i2 < i1 {
      Pow2Order(i2, i1);
    }
  }
}
