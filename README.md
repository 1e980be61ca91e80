# BitMatrix: packed bit columns and a bit-sliced matrix

This project models `src/BitMatrix.c`, the bit-vector and bit-matrix core of
Biostrings, and proves properties of the model in Dafny.

- A **BitCol** packs `nbit` bits into `nword = ceil(nbit / W)` machine words.
  Bit `i` sits in word `i div W`, at bit position `i mod W`.
- A **BitMatrix** stores `nrow x ncol` bits column by column in one buffer of
  `ncol * nword_per_col` words, with `nword_per_col = ceil(nrow / W)`.
  Column `j` is the BitCol that starts at word `j * nword_per_col`.
- `_BitMatrix_get_col` builds a zero-copy view of one column: a BitCol whose
  words are the matrix's own buffer.
- `_BitMatrix_grow1rows` ripples a mask column through the bit planes, one
  word at a time.

Rows are read as integers the way `BitMatrix_tr` reads them: row `i` has the
value `sum of 2^j` over its set bits `(i, j)`. The word width
`NBIT_PER_BITWORD` is fixed at 64 (`bv64`).

The model keeps the source's form:

- The C structs never change their fields after construction, so `BitCol`
  and `BitMatrix` are datatypes holding an `array<bv64>`.
- A BitCol also holds an offset into its array, so that a column view shares
  the matrix's array. Aliasing between a view and its matrix is therefore
  visible to the proofs, not hidden.
- The fill loops, the single-bit setters and the two loops of grow1rows are
  methods over that array. The BitCol fill, the single-bit setters and
  grow1rows are proved against a specification function of the old
  contents: `FillWords`, `SetColBit`, `SetCell` and `GrowWords`. The two
  matrix fills, `BitMatrices.SetVal` and `SetValByCols`, are proved to
  leave every word of the buffer equal to val.
- The getters are functions.
- Errors that the C raises with `error()` are `Err`/`Fail` results. On an
  error nothing is allocated or changed.

**How grow1rows is specified.** Grow1Rows is proved to produce `GrowWords`:
every word is ORed with the carry entering it. The carry entering column 0 is
the mask word; the carry into the next column is the carry ANDed with the
word. The lemmas then read this lane by lane and row by row.

For a row whose mask bit is set, the lowest clear bit is set. The row value
`r` becomes `r | (r + 1)`, and a row of all ones keeps its value. A row whose
mask bit is clear is unchanged.

A ripple-carry adder would XOR the carry into each word, as the
commented-out `BitMatrix_addcol` does (src/BitMatrix.c:248-268, line 260).
Line 186 of grow1rows ORs it in instead (`*Lword |= Rword`), so grow1rows
is not an adder. OR and XOR agree while the carry meets a clear bit, so an
even row does go up by one (`RowValues.EvenGrowth`). Where the carry meets a
set bit, the OR keeps that bit set instead of clearing it.
`RowValues.NotAnIncrement` and `RowValues.FourGrowths` state the
consequences:

- a 2-bit row holding 3 keeps the value 3, because all its bits are set
  and an OR sets no new bit;
- a 2-bit row holding 1 becomes 3, because the carry into bit 1 is ORed
  in while bit 0 stays set;
- a zero row grown four times becomes 15, one more low bit set per call.

**The debug scenario.** The scenario is the one `debug_BitMatrix` runs.

- Bit (0, 0) is set before the rows are grown, so row 0 goes 1, 3, 7, 15, 31.
- Rows 5 and 39 go 0, 1, 3, 7, 15.
- Setting and clearing bit (39, 14) restores the buffer as it was after bit
  (0, 0) was set. Because that bit stays set, this is not the all-zero matrix.

## Model

| member | source | states |
|---|---|---|
| Words.NWords | src/BitMatrix.c:44-47 | the word count `n` is `ceil(nbit / W)`: n words hold nbit bits, and for nbit > 0 one word fewer does not |
| Words.SetWordBit | src/BitMatrix.c:70-76 | the word after `*word \|= mask` (bit non-zero) or `*word &= ~mask` (bit zero), with mask `1 << r`: bit r of it is set exactly when bit is non-zero |
| Words.SetWordBitSpec | src/BitMatrix.c:70-76 | after `*word \|= mask` (bit non-zero) or `*word &= ~mask` (bit zero), bit r holds the requested value and every other bit of the word is unchanged |
| Words.SetWordBitRestore | src/BitMatrix.c:70-76 | setting a clear bit and then clearing it gives back the original word |
| Words.OrLane | src/BitMatrix.c:186 | every bit of `a \| b` is the OR of the two bits |
| Words.AndLane | src/BitMatrix.c:185 | every bit of `a & b` is the AND of the two bits |
| BitVectors.FillWords | src/BitMatrix.c:31-32 | filling n words from offset with val sets exactly those words to val and leaves every other word alone |
| BitVectors.SetColBit | src/BitMatrix.c:70-76 | setting bit i changes no word other than word `offset + i div W` |
| BitVectors.NewBitCol | src/BitMatrix.c:36-53 | fails with InvalidArgument exactly when nbit <= 0; otherwise gives a fresh, valid BitCol of nbit bits in ceil(nbit / W) words, every word equal to val |
| BitVectors.SetVal | src/BitMatrix.c:22-34 | the ceil(nbit / W) words of the BitCol become val and no other word of the array changes |
| BitVectors.GetBit | src/BitMatrix.c:55-63 | returns 0 or 1, and 1 exactly when bit i mod W of word i div W is set |
| BitVectors.SetBit | src/BitMatrix.c:65-78 | the new array is the old one with bit i set or cleared (SetColBit) |
| BitVectors.FillBits | src/BitMatrix.c:51 | after a fill with val, bit i reads as bit i mod W of val, `(val >> (i mod W)) & 1` |
| BitVectors.SetThenGet | src/BitMatrix.c:55-78 | reading bit i after setting it gives the value written; every other bit reads as before |
| BitVectors.SetBitRestore | src/BitMatrix.c:65-78 | setting a clear bit and clearing it again leaves the whole array as it was |
| RowValues.Value | src/BitMatrix.c:218-223 | the row value `sum of 2^j over the set bits` of an n-bit row is below 2^n |
| RowValues.SetLowestClear | src/BitMatrix.c:184-189 | the bits of a selected row after grow1rows: the row with its lowest clear bit set; it has the same length and keeps every bit that was set |
| RowValues.GrownValue | src/BitMatrix.c:184-189 | the value of a row after grow1rows: never smaller than before, strictly larger for a selected row below 2^ncol - 1, and still below 2^ncol |
| RowValues.SetLowestClearAt | src/BitMatrix.c:184-189 | after a row's lowest clear bit is set, bit j is set exactly when it was set before or all bits below j were set |
| RowValues.SetLowestClearAllOnes | src/BitMatrix.c:184-189 | a row of all ones is left unchanged (no wrap-around) |
| RowValues.AllOnesValue | src/BitMatrix.c:218-223 | a row has value 2^n - 1 exactly when all its bits are set |
| RowValues.SetLowestClearValue | src/BitMatrix.c:186 | on a row that is not all ones, setting the lowest clear bit turns value r into `r \| (r + 1)` |
| RowValues.GrowBits | src/BitMatrix.c:184-189 | the value of the grown row is GrownValue: `r \| (r + 1)` while r < 2^ncol - 1, otherwise r; an unselected row keeps r |
| RowValues.BitOrPow2 | src/BitMatrix.c:186 | `(2^t - 1) \| 2^t == 2^(t+1) - 1` |
| RowValues.Thermometer | src/BitMatrix.c:184-189 | a selected row of value 2^t - 1 with t < ncol grows to 2^(t+1) - 1 |
| RowValues.EvenGrowth | src/BitMatrix.c:184-189 | a selected row of even value 2r with 2r + 1 < 2^ncol grows to 2r + 1, as an increment would |
| RowValues.NotAnIncrement | src/BitMatrix.c:186 | growing a 2-bit row takes 1 to 3 and keeps 3 at 3, where adding 1 modulo 2^ncol would give 2 and 0: the OR at line 186 is not an increment |
| RowValues.FourGrowths | src/BitMatrix.c:184-189 | four growths of a zero 15-bit row give 15, where four increments would give 4 |
| BitMatrices.ColStartIsProduct | src/BitMatrix.c:150 | the column start counted column by column equals `j * nword_per_col` |
| BitMatrices.ColStartMonotone | src/BitMatrix.c:150 | column j ends no later than column j' starts, for j < j' |
| BitMatrices.SlotDistinct | src/BitMatrix.c:150 | word x of column j and word x' of column j' are the same buffer word exactly when j == j' and x == x' |
| BitMatrices.Locate | src/BitMatrix.c:150 | every buffer word below ncol * nword_per_col is word x < nword_per_col of a column j < ncol |
| BitMatrices.LocateSlot | src/BitMatrix.c:150 | Locate returns that column and word for word x of column j |
| BitMatrices.BufferColumns | src/BitMatrix.c:130 | the buffer holds exactly ncol columns of nword_per_col words |
| BitMatrices.CellInRange | src/BitMatrix.c:149-150 | for an in-range (i, j), the word holding bit (i, j) and all of column j lie inside the buffer |
| BitMatrices.RowBitsAt | src/BitMatrix.c:221 | bit j of row i is bit i mod W of word i div W of column j |
| BitMatrices.RowValue | src/BitMatrix.c:211-223 | the value `BitMatrix_tr` stores for row i, `Value` of `RowBits` (bit j is bit (i, j), column 0 least significant), is below 2^ncol |
| BitMatrices.NewBitMatrix | src/BitMatrix.c:118-137 | fails with InvalidArgument exactly when nrow <= 0 or ncol <= 0; otherwise gives a fresh, valid matrix (nword_per_col = ceil(nrow / W), ncol * nword_per_col words) with every word val |
| BitMatrices.SetVal | src/BitMatrix.c:99-116 | the column-by-column fill loop sets every word of the buffer to val |
| BitMatrices.FillCells | src/BitMatrix.c:99-116 | after a fill with val, bit (i, j) reads as bit i mod W of val |
| BitMatrices.SetValByCols | src/BitMatrix.c:91-98 | the fill through the column views that the comment describes also sets every word to val, so it matches SetVal |
| BitMatrices.GetBit | src/BitMatrix.c:144-152 | returns 0 or 1, and 1 exactly when bit i of column j (word j * nword_per_col + i div W) is set |
| BitMatrices.SetBit | src/BitMatrix.c:159-172 | the new buffer is the old one with bit (i, j) set or cleared (SetCell) |
| BitMatrices.SetCell | src/BitMatrix.c:164-170 | the buffer after `_BitMatrix_set_bit`: only word j * nword_per_col + i div W can differ from the old buffer |
| BitMatrices.SetCellThenGet | src/BitMatrix.c:144-172 | reading bit (i, j) after setting it gives the value written; every other bit, in this column or any other, reads as before |
| BitMatrices.SetCellRestore | src/BitMatrix.c:159-172 | setting a clear bit (i, j) and clearing it again leaves the whole buffer as it was |
| BitMatrices.GetCol | src/BitMatrix.c:81-89 | the view shares the matrix's array, starts at word j * nword_per_col, has nword_per_col words and nrow bits, and its bit i is matrix bit (i, j) |
| BitMatrices.SetBitThroughCol | src/BitMatrix.c:154-158 | setting bit i through the view of column j changes the buffer exactly as setting bit (i, j) |
| BitMatrices.CarryAtStep | src/BitMatrix.c:185-187 | lane r of the next carry is lane r of the carry AND lane r of the word |
| BitMatrices.CarryStep | src/BitMatrix.c:185-188 | in lane i, the carry entering column j is the carry entering column j - 1 ANDed with bit (i, j - 1) |
| BitMatrices.CarryLane | src/BitMatrix.c:183-188 | in lane i, the carry entering column j is set exactly when mask bit i is set and bits (i, 0) .. (i, j - 1) are all set |
| BitMatrices.GrowWords | src/BitMatrix.c:181-190 | the buffer grow1rows produces, of the old buffer's length; each word is ORed with `CarryAt`, the carry entering it (the mask word for column 0, then the carry ANDed with the word of the previous column) |
| BitMatrices.GrowZeroMask | src/BitMatrix.c:181-190 | with a mask that selects no row, every carry is zero and the grown buffer equals the old one |
| BitMatrices.GrowBitAt | src/BitMatrix.c:186 | lane r of a grown word is the old lane r OR lane r of its carry |
| BitMatrices.GrowCell | src/BitMatrix.c:184-189 | bit (i, j) after growing is set when it was set before, or when mask bit i and all of bits (i, 0) .. (i, j - 1) were set |
| BitMatrices.GrowRowBits | src/BitMatrix.c:184-189 | a row whose mask bit is set gets its lowest clear bit set; a row whose mask bit is clear is unchanged |
| BitMatrices.GrowRowValue | src/BitMatrix.c:184-189 | the row value becomes GrownValue of the old value: `r \| (r + 1)` below 2^ncol - 1 for a selected row, unchanged otherwise |
| BitMatrices.RippledStart | src/BitMatrix.c:181 | before the loops nothing has been grown |
| BitMatrices.RippledEnd | src/BitMatrix.c:190 | after every word slot the buffer is the grown buffer |
| BitMatrices.RippledNextWord | src/BitMatrix.c:184-190 | finishing slot i1 in the last column is the same state as starting slot i1 + 1 |
| BitMatrices.RippledAt | src/BitMatrix.c:182-183 | word i1 of a column the inner loop has not reached yet still holds its old value |
| BitMatrices.RippledStep | src/BitMatrix.c:186-188 | growing word i1 of column j moves the state from column j to column j + 1 and changes only that word |
| BitMatrices.RippleWord | src/BitMatrix.c:185-188 | one inner step writes the grown word and returns the carry for the next column |
| BitMatrices.MaskWord | src/BitMatrix.c:183 | `Rword = bitcol->words[i1]` reads the old mask word i1, also when the mask is a column view of the same matrix |
| BitMatrices.RippleSlot | src/BitMatrix.c:184-189 | the inner loop grows word i1 of every column |
| BitMatrices.RippleAll | src/BitMatrix.c:181-190 | the two loops leave exactly the grown buffer GrowWords |
| BitMatrices.Grow1Rows | src/BitMatrix.c:174-192 | fails with IncompatibleShape, changing nothing, exactly when the mask's nbit differs from nrow; otherwise the buffer becomes GrowWords and every row value becomes GrownValue of its old value under its mask bit; a mask in another array is unchanged |
| DebugScenario.ScenarioMaskBits | src/BitMatrix.c:309 | among the low 40 bits of `33 + (1 << 39)`, exactly bits 0, 5 and 39 are set |
| DebugScenario.ScenarioMaskGetBit | src/BitMatrix.c:309 | the scenario's mask column reads 1 exactly at rows 0, 5 and 39 |
| DebugScenario.NoBitsValue | src/BitMatrix.c:218-223 | a row with no bit set has value 0 |
| DebugScenario.UnitValue | src/BitMatrix.c:218-223 | a row whose only set bit is bit 0 has value 1 |
| DebugScenario.FirstRows | src/BitMatrix.c:308-312 | after bit (0, 0) of the zero 40 x 15 matrix is set, row 0 holds 1 and every other row 0 |
| DebugScenario.CornerClear | src/BitMatrix.c:312-314 | bit (39, 14) is still clear before it is set |
| DebugScenario.ExpectedStep | src/BitMatrix.c:317-324 | each growth step takes row 0 from 2^(t+1) - 1 to 2^(t+2) - 1, rows 5 and 39 from 2^t - 1 to 2^(t+1) - 1, and leaves the other rows at 0 |
| DebugScenario.NewScenario | src/BitMatrix.c:308-316 | builds the 40 x 15 matrix and the mask in separate buffers; after the three calls of set_bit row 0 holds 1 and all other rows 0 |
| DebugScenario.SetScenarioBits | src/BitMatrix.c:311-316 | the three calls of set_bit leave row 0 at 1 and every other row at 0 |
| DebugScenario.GrowStep | src/BitMatrix.c:317-318 | one call of grow1rows moves every row one step along its thermometer code |
| DebugScenario.GrowFour | src/BitMatrix.c:317-324 | the four calls of grow1rows take the rows from their state after set_bit to their state after four steps |
| DebugScenario.FinalRows | src/BitMatrix.c:317-324 | after four steps row 0 holds 31, rows 5 and 39 hold 15, and every other row 0 |
| DebugScenario.Scenario | src/BitMatrix.c:308-325 | the whole self-test ends with row 0 at 31, rows 5 and 39 at 15 and every other row at 0 |

## Left out

- Memory allocation (`Salloc`) and the lifetime of R's transient memory are not modelled. A new buffer is a fresh Dafny array.
- `error()` is R's non-returning error exit. It is modelled as an `Err` or `Fail` result, with nothing allocated or changed.
- Index range errors in the getters and setters are not modelled. The C does not check ranges, and `div()` of a negative index is not meaningful, so in-range indices are preconditions.
- C `int` overflow in `j * nword_per_col` and in `nword_per_col * ncol` is not modelled: sizes are unbounded integers, assumed to fit.
- `NBIT_PER_BITWORD` comes from a header that is not part of this model. It is fixed at 64.
- `BitMatrix_tr` is not modelled as executable code. The row value it computes is the ghost function `BitMatrices.RowValue`. Its checks on `out->nelt` and on `ncol < 32` are left out with it.
- `BitMatrix_print`, `Rprintf` and the `IntAE` buffer are output and a foreign data structure, so they are left out.
- The `debug` flag and the toggling in `debug_BitMatrix` are left out. Only the calls the self-test makes are modelled, as `DebugScenario.Scenario`.
- The commented-out `BitMatrix_addcol`, `testing1` and `testing2` are dead code and are not modelled.
- The padding bits beyond `nrow` in the last word of each column are written by the fills and by grow1rows, and the whole-buffer contracts of the fills (`FillWords`, every word val) and of `Grow1Rows` (`GrowWords`) fix their values, but no property reads or depends on them.
- BitMatrices.Grow1Rows: a mask that shares the matrix's array must start at a column boundary, as a column view does. A mask inside the matrix's buffer at any other offset is excluded by the precondition. With such a mask, the carry words would be read from words that the ripple has already changed.
