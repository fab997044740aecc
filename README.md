# Minesweeper rule engine, modelled in Dafny

This project models the rule engine of a terminal Minesweeper written in Rust
(`src/main.rs`):

- The board is a 30-by-16 grid of `u32` bit fields indexed `grid[x][y]`:
  - bit 4 (`MINE`) marks a mine;
  - bit 5 (`UNKNOWN`) marks a covered cell;
  - bit 6 (`MARK`) marks a flag;
  - the low four bits (`NUMBER_MASK`) hold the number of mines around the cell.
- The set-up makes every cell covered, lays 99 mines by rejection sampling, and
  then ors into every cell the number of mines in its 3x3 block. The block
  includes the cell itself.
- The reveal operation is a recursive flood fill.
- The cursor keys move a clamped cursor, and `!` toggles a flag.

Cells are `bv32`, so `&`, `|`, `^` and `!` mean what they mean in the Rust code.
A cell's meaning is given by `CellBits.Decode`. The board is an `array2<bv32>`
updated in place. The proofs about the flood fill are stated on value snapshots
(`Minesweeper.Snap`).

Modules:

- `CellBits` (`cell_bits.dfy`): the constants and the cell-level operations.
- `Neighbourhood` (`neighbourhood.dfy`): the 3x3 block scan and the mine counts
  as recursive sums, proved equal to set cardinalities.
- `Flood` (`flood.dfy`): what a reveal may leave behind (`Revealed`) and the
  lemmas that keep the propagation loop's invariant.
- `Setup` (`setup.dfy`): the value-level facts about laying mines and counting.
- `Minesweeper` (`minesweeper.dfy`): the imperative model. It has the methods
  `Reveal`, `NewGrid`, `PlaceMines` and `CountNeighbours`, and the class `Game`
  with the board and the cursor.

Facts about this program that the model keeps:

- Mines are laid before any input. There is no chorded reveal, no flag counter
  and no first-click safe zone.
- Revealing a flagged, covered cell uncovers it and clears the flag. The guard
  tests only `UNKNOWN`.
- The count of a cell includes the cell itself, so a mine's own low bits count
  that mine (`Neighbourhood.MineCountsItself`).
- A count is at most 9 (`Neighbourhood.Around`), and 9 is reached
  (`Neighbourhood.AroundNine`).

## Model

| member | source | states |
|---|---|---|
| `CellBits.ConstantsLayout` | src/main.rs:9-12 | MINE, UNKNOWN and MARK are 16, 32 and 64; NUMBER_MASK is 15; and the four fields do not overlap |
| `CellBits.Number` | src/main.rs:86 | the count in the low bits is below 16, and it is zero exactly when `grid & NUMBER_MASK == 0` |
| `CellBits.DecodeEncode` | src/main.rs:9-12 | decoding the bit field of a cell (with a count below 16) gives that cell back |
| `CellBits.EncodeDecode` | src/main.rs:9-12 | a word using only the four fields is the encoding of its decoding |
| `CellBits.InitialWords` | src/main.rs:133 | `UNKNOWN` is a covered cell without mine, flag or count; `MINE \| UNKNOWN` is the same with a mine |
| `CellBits.Uncover` | src/main.rs:79 | clearing UNKNOWN and MARK gives an uncovered cell without a flag, keeps the mine bit, the count and every other bit, and changes a covered cell |
| `CellBits.Flag` | src/main.rs:198-204 | on a covered cell the flag key flips the flag and only MARK (`r ^ c == MARK`); on an uncovered cell it changes nothing |
| `CellBits.FlagTwice` | src/main.rs:198-204 | toggling the flag twice restores the cell |
| `CellBits.OrKeepsFlags` | src/main.rs:152 | or-ing a count below 16 into a cell keeps its mine, covered and flag bits |
| `CellBits.OrSetsCount` | src/main.rs:152 | or-ing a count into a cell whose count bits are clear sets its count to that number and keeps the rest |
| `Neighbourhood.Around` | src/main.rs:140-151 | the number of mines in the in-bounds block is at most 9 |
| `Neighbourhood.AroundNine` | src/main.rs:140-151 | the bound 9 is reached: the middle cell of a 3-by-3 board full of mines counts 9 |
| `Neighbourhood.AroundIsCard` | src/main.rs:140-151 | the count of (x, y) is the number of distinct mines at in-bounds cells of the block from `Lo(x)` to `x + 1` and from `Lo(y)` to `y + 1`, the cell included |
| `Neighbourhood.RectMinesIsCard` | src/main.rs:141-151 | the column-by-column sum over a rectangle is the number of distinct mines in it |
| `Neighbourhood.ColumnMinesIsCard` | src/main.rs:143-150 | the sum over one column of the scan is the number of distinct mines in it |
| `Neighbourhood.AroundZero` | src/main.rs:86-98 | a cell counting zero has no mine anywhere in its in-bounds block |
| `Neighbourhood.MineCountsItself` | src/main.rs:140-151 | a mine counts itself, so its count is at least 1 |
| `Neighbourhood.SomeCellFree` | src/main.rs:122-131 | fewer mines than cells leaves a cell without a mine, so the rejection loop has something to find |
| `Flood.Fewer` | src/main.rs:79-95 | uncovering the target strictly shrinks the set of covered cells, which is what each nested reveal decreases |
| `Flood.Nothing` | src/main.rs:74-77 | revealing an uncovered cell leaves the board unchanged and meets the reveal contract |
| `Flood.Start` | src/main.rs:79-86 | right after the target is uncovered, the propagation invariant holds |
| `Flood.Step` | src/main.rs:93-96 | one nested reveal of a non-mine neighbour keeps the invariant: cells are only uncovered, no mine besides the target is opened, opened cells besides the target are flooded, and with the merged ranks (the nested call's cells one above their rank there) every opened cell besides the target has a lower-ranked opened zero cell in its block; that neighbour ends up uncovered |
| `Flood.OpenedNext` | src/main.rs:91-97 | passing a cell of the block keeps "every non-mine cell scanned so far is uncovered" |
| `Flood.Finish` | src/main.rs:89-98 | after the whole block is scanned, the target is flooded: every in-bounds non-mine cell of its block is uncovered |
| `Flood.ZeroNeighbourIff` | src/main.rs:89-98 | the unrolled nine-cell test equals "some cell of the block was opened, counts zero and ranks lower" |
| `Flood.RootedReaches` | src/main.rs:86-98 | in a board with ranked parents, every opened cell is reached from the target through opened non-mine zero cells, each step staying within a 3x3 block, in at most its rank in steps |
| `Flood.RevealedUnique` | src/main.rs:72-101 | a reveal has exactly one outcome: two boards that are both `Revealed` outcomes of the same board and target are equal, whatever their ranks |
| `Flood.UncoversKeep` | src/main.rs:79 | uncovering cells never changes a mine bit or a count |
| `Setup.PlaceStep` | src/main.rs:127-133 | laying a mine on a mine-free covered cell adds exactly that cell to the mine set and keeps every cell covered and uncounted |
| `Setup.CountWrite` | src/main.rs:152 | or-ing the count of (x, y) into its cell moves the counting pass one cell on |
| `Setup.CountedMines` | src/main.rs:136-154 | at any point of the counting pass, the mine set is the one the pass started from |
| `Setup.CountedAll` | src/main.rs:136-154 | after the pass, each cell is its old word or-ed with its count |
| `Setup.CountInto` | src/main.rs:152 | a cell with clear count bits, or-ed with n, decodes to the same cell with count n |
| `Minesweeper.Reveal` | src/main.rs:72-101 | the result is false iff the target was covered and a mine; an uncovered target gives true and an unchanged board; a covered target that is a mine or counts non-zero is the only cell that changes (it is uncovered); otherwise the board is a `Revealed` outcome with the returned ranks: only covered cells are uncovered, no mine besides the target is opened, every opened non-mine zero cell has every in-bounds non-mine cell of its block uncovered, the target has rank 0, and every opened cell besides the target has a lower-ranked opened non-mine zero parent in its block, so it is reached from the target (`Flood.RootedReaches`). Termination is proved by the shrinking set of covered cells |
| `Minesweeper.NewGrid` | src/main.rs:108-115 | a fresh w-by-h grid with every cell `UNKNOWN` |
| `Minesweeper.PlaceMine` | src/main.rs:120-133 | one round returns a cell that had no mine, lays `MINE \| UNKNOWN` there, adds exactly that cell to the mine set and keeps every cell covered and uncounted |
| `Minesweeper.PlaceMines` | src/main.rs:118-134 | from an all-`UNKNOWN` board, lays exactly m distinct mines; every cell is still `UNKNOWN` or `MINE \| UNKNOWN` |
| `Minesweeper.CountAround` | src/main.rs:140-151 | the number the scan finds is the count of the cell for the board's mine set, at most 9 |
| `Minesweeper.CountCell` | src/main.rs:140-152 | after counting one cell, the pass has moved one cell on |
| `Minesweeper.CountColumn` | src/main.rs:138-153 | after counting one column, the pass has moved one column on |
| `Minesweeper.CountedWords` | src/main.rs:136-154 | once the pass is over, the mine set is unchanged and each cell that had clear count bits decodes to its old cell with its count |
| `Minesweeper.CountNeighbours` | src/main.rs:136-154 | keeps the mine set; each cell with clear count bits keeps its mine, covered and flag bits and gets the count of its block |
| `Minesweeper.Game.constructor` | src/main.rs:105-157 | a new game: a 30-by-16 board with 99 mines, every cell covered and unflagged with its block's count, and the cursor at (15, 8) |
| `Minesweeper.Game.MoveUp` | src/main.rs:173 | the up key moves the cursor one row up, staying at row 0, and keeps it on the board |
| `Minesweeper.Game.MoveDown` | src/main.rs:174-181 | the down key moves the cursor one row down, clamped to the last row |
| `Minesweeper.Game.MoveRight` | src/main.rs:182-189 | the right key moves the cursor one column right, clamped to the last column |
| `Minesweeper.Game.MoveLeft` | src/main.rs:190 | the left key moves the cursor one column left, staying at column 0 |
| `Minesweeper.Game.FlagAtCursor` | src/main.rs:198-204 | the `!` key toggles the flag of the cell under the cursor (as `CellBits.Flag`), changes no other cell and keeps the board invariant |
| `Minesweeper.Game.RevealAtCursor` | src/main.rs:191-197 | the space key reveals the cell under the cursor as `Reveal` does: the game goes on iff that cell was not a covered mine; an uncovered cell leaves the board unchanged; a covered mine, or a covered cell counting a mine, is the only cell that changes; a covered cell counting zero opens its whole in-bounds block; the board invariant (mines and counts) is kept |

## Left out

- `print_grid` and `main` are not modelled. They are terminal rendering and set-up.
- The `println!`/`read()` in `reveal`'s losing branch is not modelled. It is I/O, and the model returns false at that point.
- crossterm's `Result` and `?` are not modelled. No operation of the model can fail with an I/O error.
- The key-event dispatch loop of `run_game` (lines 159-210) is not modelled. Each handled key is a method of `Game`.
- The `q` key (line 172) is not modelled. It ends the game and changes no state.
- The random number generator is not modelled. Each draw of the rejection loop (lines 122-131) is "any cell with no mine yet" (`:|`), so every proved property holds whatever the draws are.
- Minesweeper.PlaceMines: requires `m <= w * h`. That is where the source's rejection loop can end at all. The model does not prove that random sampling ends with probability one.
- Minesweeper.CountAround: returns the count as an unbounded `nat`, written into the cell through `CellBits.Word`. The Rust `n` is a `u32`, but the count never exceeds 9, so no width effect is lost.
- Minesweeper.CountNeighbours: states the counted cells through `Decode` and only for cells whose count bits were clear. That covers every cell the set-up produces (`CellBits.InitialWords`). A cell with stale count bits would or two counts together; that case is not described.
- The `usize` cursor coordinates and grid indices are modelled as `nat`. `py += 1` stays below 17, so no overflow is reachable.
- Minesweeper.Reveal: the Rust recursion depth, and so a stack overflow on a huge board, is not modelled.
