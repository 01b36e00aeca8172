# Slicing-by-8 CRC-32 / CRC-32C table generator, modelled in Dafny

`gen_crc32table.c` builds the lookup tables for slicing-by-8 CRC-32. It
does this for the Ethernet polynomial and for the Castagnoli (CRC-32C)
polynomial, each in two conventions:

- the bit-reflected, "little-endian" register;
- the natural, "big-endian" register.

Each table has eight rows of 256 32-bit words:

- Row 0 holds the CRC of every single byte. The generator fills it with
  only eight bit-steps of the register. It does this by xoring
  already-known entries, which works because the table is linear over GF(2).
- Row `r` holds the CRC of a byte followed by `r` zero bytes. It is derived
  from row `r - 1` through row 0.

This project models the two generic generators as methods on an
`array2<bv32>`, with the same loops, masks, shifts and register updates as
the C code. The four fixed-polynomial wrappers are modelled too. Each
method is proved against a bit-at-a-time specification of the CRC.

Files:

- `bits.dfy` (module `Bits`): byte masks, the array index of a byte value,
  and `Xor`, a named exclusive or. `Bits.XorIsXor` proves `Xor(a, b) == a ^ b`.
- `crc_le.dfy` (`CrcLittleEndian`) and `crc_be.dfy` (`CrcBigEndian`): the
  specification of each convention:
  - `Step`, one bit of polynomial division;
  - `ShiftByte`, eight steps;
  - `Update` and `Crc`, a bit-at-a-time CRC of a byte string;
  - `Entry(poly, x, r)`, the value the table should hold at row `r`, index `x`.

  The lemmas cover linearity, the row-0-based row step, the "entry is a CRC"
  theorem, and the register values the loops pass through.
- `reflect.dfy` (`Reflect`): 32-bit bit reversal. It covers:
  - the two polynomial pairs;
  - the proof that reversal turns a big-endian table into the little-endian
    table of the reversed polynomial.
- `gen_crc32table.dfy` (`GenCrc32Table`): the constants and geometry
  macros, the generators with their loops, the wrappers, and the lemmas on
  which row-0 slot each loop pass writes. It also defines the predicates
  `LeTable`/`BeTable`, "this array holds the table of this polynomial".
  `At(tab, r, x)` is `tab[r][x]` for a bit-vector index `x`.
- `tables.dfy` (`CrcTables`): the properties of a finished table, stated on
  the array.

## Model

| member | source | states |
|---|---|---|
| GenCrc32Table.TableDims | gen_crc32table.c:34-53 | with 64 bits per step in both conventions, the row and size macros give 8 rows of 256 entries (`BITS / 8` rows because `BITS > 8`) |
| Reflect.EthernetReflected | gen_crc32table.c:16-17 | the little-endian CRC-32 constant 0xedb88320 is the 32-bit bit reversal of 0x04c11db7 |
| Reflect.CastagnoliReflected | gen_crc32table.c:24-25 | the little-endian CRC-32C constant 0x82F63B78 is the bit reversal of 0x1edc6f41 |
| Reflect.ReverseInvolution | gen_crc32table.c:16-25 | reversal is its own inverse, so each constant of a pair determines the other |
| GenCrc32Table.Crc32InitLeGeneric | gen_crc32table.c:67-88 | on return every entry `tab[r][x]` of the 8×256 array is `Entry(polynomial, x, r)`: byte `x` followed by `r` zero bytes, through the reflected register |
| GenCrc32Table.LeFillRow0 | gen_crc32table.c:71-79 | starting from `crc = 1` and `tab[0][0] = 0`, the halving loop leaves every row-0 entry equal to eight bit steps of its index |
| GenCrc32Table.LeHalvingPass | gen_crc32table.c:77-78 | given the entries with no set bit below `2i` and `crc` = the entry of `i`, the pass makes the entries whose low bits are exactly `i` correct too, as `crc ^ tab[0][j]` |
| GenCrc32Table.LeFillColumn | gen_crc32table.c:82-86 | column `i` of rows 1..7 becomes `Entry(polynomial, i, r)`; row 0 and every other column are unchanged |
| GenCrc32Table.Crc32InitBeGeneric | gen_crc32table.c:103-124 | on return every entry `tab[r][x]` is `Be.Entry(polynomial, x, r)`: byte `x << 24` followed by `r` zero bytes, through the natural register |
| GenCrc32Table.BeFillRow0 | gen_crc32table.c:107-115 | starting from `crc = 0x80000000` and `tab[0][0] = 0`, the doubling loop leaves every row-0 entry equal to eight bit steps of its index placed in the top byte |
| GenCrc32Table.BeDoublingPass | gen_crc32table.c:113-114 | given the entries below `i` and `crc` = the entry of `i`, the pass makes the entries below `2i` correct, as `crc ^ tab[0][j]` |
| GenCrc32Table.BeFillColumn | gen_crc32table.c:118-122 | column `i` of rows 1..7 becomes `Be.Entry(polynomial, i, r)`; row 0 and every other column are unchanged |
| GenCrc32Table.Crc32InitLe | gen_crc32table.c:90-93 | returns a fresh array holding the little-endian table of 0xedb88320 |
| GenCrc32Table.Crc32cInitLe | gen_crc32table.c:95-98 | returns a fresh array holding the little-endian table of 0x82F63B78 |
| GenCrc32Table.Crc32InitBe | gen_crc32table.c:126-129 | returns a fresh array holding the big-endian table of 0x04c11db7 |
| GenCrc32Table.Crc32cInitBe | gen_crc32table.c:131-134 | returns a fresh array holding the big-endian table of 0x1edc6f41 |
| CrcTables.LeTableZero | gen_crc32table.c:73 | in a finished little-endian table, index 0 holds 0, in row 0 and in every other row |
| CrcTables.LeTableLinear | gen_crc32table.c:63-64 | for all `a, b < 256` and every row, `tab[r][a ^ b]` is the xor of `tab[r][a]` and `tab[r][b]`; row 0 is the case the halving loop relies on |
| CrcTables.LeTableCrc | gen_crc32table.c:63 | `tab[r][b]` is the bit-at-a-time CRC of the byte string `b, 0, …, 0` (`r` zeros) from a zero register; `tab[0][b]` is eight steps of `crc = (crc >> 1) ^ (crc & 1 ? poly : 0)` from `b` |
| CrcTables.LeTableRowDerivation | gen_crc32table.c:84-85 | for `1 ≤ r < 8`, `tab[r][i]` is the xor of `tab[0][tab[r-1][i] & 0xff]` and `tab[r-1][i] >> 8` |
| CrcTables.BeTableZero | gen_crc32table.c:109 | in a finished big-endian table, index 0 holds 0 in every row |
| CrcTables.BeTableLinear | gen_crc32table.c:111-115 | for all `a, b < 256` and every row, `tab[r][a ^ b]` is the xor of `tab[r][a]` and `tab[r][b]` |
| CrcTables.BeTableCrc | gen_crc32table.c:107-115 | `tab[r][b]` is the natural-order CRC of `b, 0, …, 0` (`r` zeros); `tab[0][b]` is eight steps of `crc = (crc << 1) ^ (crc & 0x80000000 ? poly : 0)` from `b << 24` |
| CrcTables.BeTableRowDerivation | gen_crc32table.c:120-121 | for `1 ≤ r < 8`, `tab[r][i]` is the xor of `tab[0][(tab[r-1][i] >> 24) & 0xff]` and `tab[r-1][i] << 8` |
| CrcTables.TablesMirror | gen_crc32table.c:67-124 | the little-endian table of `reverse32(p)` is the big-endian table of `p` with each entry and each 8-bit index bit-reversed |
| CrcTables.Crc32TablesMirror | gen_crc32table.c:90-129 | the two CRC-32 tables the wrappers fill are bit-reversed images of each other |
| CrcTables.Crc32cTablesMirror | gen_crc32table.c:95-134 | the same for the two CRC-32C tables |
| GenCrc32Table.LeSlotOf | gen_crc32table.c:75-78 | every index 1..255 is a halving-loop slot `i + j`: `i` is its lowest set bit, a power of two below 256, and `j` is a multiple of `2i` below 256 |
| GenCrc32Table.LowBitOfSlot | gen_crc32table.c:77-78 | the lowest set bit of the slot `i + j` is `i` |
| GenCrc32Table.LeSlotUnique | gen_crc32table.c:75-78 | no index is written by two passes, or twice in one pass: equal slots have equal `i` and `j` |
| GenCrc32Table.LeSourceEarlier | gen_crc32table.c:78 | the source `j` of a slot is 0 or has its lowest set bit above `i`, so an earlier pass (larger `i`) wrote it |
| GenCrc32Table.BeSlotOf | gen_crc32table.c:111-114 | every index 1..255 is a doubling-loop slot `i + j`: `i` is its highest set bit, and `j < i` |
| GenCrc32Table.BeSlotRange | gen_crc32table.c:113-114 | slot `i + j` of pass `i` lies in `[i, 2i)`, so its source `j < i` comes from an earlier pass or is 0 |
| GenCrc32Table.BeSlotUnique | gen_crc32table.c:111-114 | no index is written twice: equal slots have equal `i` and `j` |
| CrcLittleEndian.EntryIsCrc | gen_crc32table.c:63 | `Entry(poly, b, r)` is `Crc(poly, 0, [b] + r zero bytes)`, the bit-at-a-time CRC |
| CrcLittleEndian.EntryLinear | gen_crc32table.c:63-64 | every row of entries is linear: `Entry(a ^ b) == Entry(a) ^ Entry(b)` |
| CrcLittleEndian.EntryZero | gen_crc32table.c:73 | the entry of index 0 is 0 in every row |
| CrcLittleEndian.ShiftByteLinear | gen_crc32table.c:63-64 | a byte of zero-shifting is linear over GF(2) |
| CrcLittleEndian.ShiftByteFold | gen_crc32table.c:84 | eight bit steps of a register equal the eight-step value of its low byte xor the register shifted right by 8 |
| CrcLittleEndian.EntryRow | gen_crc32table.c:84 | with `c` the entry in row `r` and `t` the row-0 entry at `c & 0xff`, the entry in row `r + 1` is `t ^ (c >> 8)` |
| CrcLittleEndian.Row0 | gen_crc32table.c:78 | for disjoint bits `i` and `j`, the row-0 entry of `i + j` is the xor of the entries of `i` and `j` |
| CrcLittleEndian.EntryPastTable | gen_crc32table.c:71 | the starting register 1 is the row-0 value of index 256, one past the table |
| CrcLittleEndian.HalvingStep | gen_crc32table.c:76 | one register update of the halving loop takes the row-0 value of `2i` to that of `i` |
| CrcLittleEndian.CrcAppend | gen_crc32table.c:63 | the bit-at-a-time CRC of a concatenation is the CRC of the second part from the CRC of the first |
| CrcBigEndian.EntryIsCrc | gen_crc32table.c:107-115 | `Be.Entry(poly, b, r)` is the natural-order CRC of `[b] + r zero bytes` |
| CrcBigEndian.EntryLinear | gen_crc32table.c:111-115 | every row of big-endian entries is linear |
| CrcBigEndian.EntryZero | gen_crc32table.c:109 | the entry of index 0 is 0 in every row |
| CrcBigEndian.ShiftByteLinear | gen_crc32table.c:114 | a byte of zero-shifting is linear over GF(2) |
| CrcBigEndian.ShiftByteFold | gen_crc32table.c:120 | eight bit steps equal the eight-step value of the top byte xor the register shifted left by 8 |
| CrcBigEndian.EntryRow | gen_crc32table.c:120 | with `c` the entry in row `r` and `t` the row-0 entry at `(c >> 24) & 0xff`, the entry in row `r + 1` is `t ^ (c << 8)` |
| CrcBigEndian.Row0 | gen_crc32table.c:114 | for disjoint `i` and `j`, the row-0 entry of `i + j` is the xor of the entries of `i` and `j` |
| CrcBigEndian.DoublingStart | gen_crc32table.c:107 | the starting register 0x80000000 is one bit step short of the row-0 value of index 1 |
| CrcBigEndian.DoublingStep | gen_crc32table.c:112 | one register update of the doubling loop takes the row-0 value of `i` to that of `2i`, for `i < 128` |
| CrcBigEndian.CrcAppend | gen_crc32table.c:107-115 | the natural-order CRC of a concatenation is the CRC of the second part from the CRC of the first |
| Reflect.StepMirror | gen_crc32table.c:112 | a big-endian bit step, bit-reversed, is the little-endian bit step on the reversed polynomial |
| Reflect.ShiftByteMirror | gen_crc32table.c:112 | the same for eight steps |
| Reflect.EntryMirror | gen_crc32table.c:67-124 | `Le.Entry(reverse32(p), reflect8(x), r) == reverse32(Be.Entry(p, x, r))` for every byte `x` and row `r` |

## Left out

- `output_table`, `output_bswap_table` and `main` (gen_crc32table.c:136-229): these print the tables as C source text with `printf` and byte-swap them with `__builtin_bswap32`. That is I/O and text rendering. The `#if 0` block at 185-195 is dead code.
- crc32-stress.c, crc32-cli.c and crc32-bench.c are drivers. They provide a random fuzz loop, argument parsing and timing around hardware-vector CRC routines, and those routines are not part of this model.
- The static tables `crc32table_le` and the others (gen_crc32table.c:55-58) are not modelled as process-wide state. Each wrapper allocates and returns the array it fills.
- The configurations with 8 or fewer bits at a time (gen_crc32table.c:42-45 and 50-53) are not modelled. `TableRows` and `TableSize` compute those macros, but the generators are proved only for the configured 64 bits (8 rows of 256). Making the table size a parameter is not modelled either.
- The generic generators take any `uint32_t (*tab)[256]` in C and rely on the caller for the number of rows. Here they require an 8×256 array.
- In the model, each inner loop of a generator is a method of its own:
  - `LeHalvingPass` and `BeDoublingPass` are the loops at 77-78 and 113-114;
  - `LeFillColumn` and `BeFillColumn` are the loops at 83-86 and 119-122.

  The outer loops call them. The statements and their order are the C code's.
- The C loop counters are `unsigned`. The model makes the row-0 masks `i`, the halving/doubling counters `j` and the column counters `bv32`, and the row counter `j` of the column phase an `int` running from 1 to 8. No value in these loops comes near 32-bit overflow.
- The schedule lemmas (`LeSlotOf`, `LeSlotUnique`, `LeSourceEarlier`, `BeSlotOf`, `BeSlotRange`, `BeSlotUnique`) are proved about the slot arithmetic `i + j`; the generator methods do not call them, and their link to the loops is through the loop bounds. The generator proofs establish correctness of each written entry separately.
- GenCrc32Table.LeHalvingPass: states only that the row-0 entries written so far are correct. It does not state that entries it did not write are unchanged. A later pass or the column phase overwrites every cell in any case.
- GenCrc32Table.BeDoublingPass: the same as `LeHalvingPass`.
- GenCrc32Table.LeFillRow0: the same; it speaks of row 0 only.
- GenCrc32Table.BeFillRow0: the same as `LeFillRow0`.
- CrcTables.LeTableLinear: writes the xor of the two entries as `Bits.Xor(…)` rather than `^`. `Bits.XorIsXor` proves the two equal.
- CrcTables.BeTableLinear: the same as `LeTableLinear`.
- CrcTables.LeTableRowDerivation: writes the final xor as `Bits.Xor`, and `c & 0xff` as `Bits.LowByte(c)`; `Bits.LowByteIs` proves `LowByte(c) == c & 0xff`.
- CrcTables.BeTableRowDerivation: writes the final xor as `Bits.Xor`, and `(c >> 24) & 0xff` as `Bits.TopByte(c)`; `Bits.TopByteIs` gives the equality.
