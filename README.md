# Game of Life universe, modelled in Dafny

This project models the `Universe` engine of `wasm-game-of-life`. The engine is Conway's Game of Life on a
`width` x `height` grid whose edges wrap around (a torus). The grid is stored as one row-major buffer of
cells: the cell at row `r`, column `c` sits at index `r * width + c`.

The model follows the source's own form:

- `Universe` is a Dafny `class` with `width`, `height` and an `array<Cell>` buffer. Its methods update
  these in place:
  - `Tick`, `LiveNeighbourCount` and `SetCells` keep the source's loops, with invariants.
  - `Render` keeps the nested chunk and glyph loops of `Display::fmt`.
- Each method is proved against a pure specification function:
  - `NextGeneration` for `tick`
  - `LiveNeighbours` for `live_neighbor_count`
  - `MarkAlive` for `set_cells`
  - `Rendered` for the text form
- Lemmas then prove what those functions mean:
  - the four Life rules
  - that `get_index` is a bijection between in-range pairs and buffer positions
  - that the scan reads exactly the eight torus neighbours on any grid of at least 2 x 2
  - that a dead universe stays dead
  - that the block is a still life and the blinker an oscillator of period two
  - the line-by-line layout of the rendered text

Modules, one per file:

- `Cells` (`cells.dfy`): the cell enum and the transition rule.
- `Grid` (`grid.dfy`): row-major indexing and the `u32` bound.
- `Neighbours` (`neighbours.dfy`): the neighbour scan and its relation to the torus.
- `Generation` (`generation.dfy`): the next generation of a whole buffer.
- `Edits` (`edits.dfy`): the bulk edit of `set_cells`.
- `Display` (`display.dfy`): the text rendering.
- `GameOfLife` (`universe.dfy`): the `Universe` class.
- `Patterns` (`patterns.dfy`): worked examples.

## Where the torus rule and the code differ

On a torus every cell has eight neighbours. On a grid of one row, the row above and the row below are the
row itself, so a cell counts itself twice; a grid of one column is the same, with columns.

The code does something else. It loops over the offsets `[height - 1, 0, 1]` x `[width - 1, 0, 1]` and
skips every pair that is (0, 0). When `height == 1` (or `width == 1`), that dimension's offset `n - 1` is
also 0, so the code skips more than the centre:

- On a one-row or one-column grid it reads 7 cells (`Neighbours.OneRowScan`, `Neighbours.OneColumnScan`).
- On a 1 x 1 grid it reads the cell five times (`Neighbours.SingleCellScan`).

The model follows the code:

- `Neighbours.ScanIsTorus` proves that the scan equals the eight torus neighbours when both dimensions
  are at least 2.
- `Neighbours.CornerWraps` proves that the diagonal wrap, (0, 0) reading (height - 1, width - 1), holds on
  every grid.
- On the grid `[Dead, Alive, Dead]` (one row, three columns), two lemmas give the neighbour lists of the
  middle cell:
  - `Patterns.SingleRowTorus`: the torus list holds the middle cell twice.
  - `Patterns.SingleRowScan`: the scan reads it once.
- `Patterns.SingleRowCount` proves the code's count there is 1. `Patterns.SingleRowTorusCount` proves the
  torus count is 2.
- `Patterns.SingleRowMiddleDies` proves that `tick` kills the middle cell, where the rule applied to the
  torus count would keep it alive.

## Model

| member | source | states |
|---|---|---|
| Cells.Value | wasm-game-of-life/src/lib.rs:33-36 | A cell's byte value is at most 1, and it is 1 exactly when the cell is alive (`Dead = 0`, `Alive = 1`). |
| Cells.NextCell | wasm-game-of-life/src/lib.rs:108-114 | The next state follows B3/S23. A live cell stays alive iff it has 2 or 3 live neighbours. A dead cell becomes alive iff it has exactly 3. |
| Cells.LifeRules | wasm-game-of-life/src/lib.rs:24-29 | The four rules of the `Cell` doc comment, one `ensures` each: underpopulation, survival, overpopulation and birth. Any other dead cell stays dead. |
| Grid.Index | wasm-game-of-life/src/lib.rs:144-146 | `get_index`: the row-major position `row * width + column`; the `Grid` lemmas below state its meaning. |
| Grid.IndexInBounds | wasm-game-of-life/src/lib.rs:144-146 | `get_index` of an in-range (row, column) is below `width * height`, inside the buffer. |
| Grid.IndexRoundTrip | wasm-game-of-life/src/lib.rs:144-146 | Division and remainder by `width` recover the row and the column from `get_index`. |
| Grid.IndexSplit | wasm-game-of-life/src/lib.rs:144-146 | Every buffer position is `get_index` of an in-range pair, namely (i / width, i % width). |
| Grid.IndexInjective | wasm-game-of-life/src/lib.rs:144-146 | Distinct in-range pairs have distinct indices. |
| Grid.IndexOrder | wasm-game-of-life/src/lib.rs:102-104 | The row-then-column loop order of `tick` visits indices in increasing order. |
| Neighbours.Deltas | wasm-game-of-life/src/lib.rs:127-128 | The offset list has three entries and the middle one is 0. |
| Neighbours.Reduce | wasm-game-of-life/src/lib.rs:133-134 | The `%` of a sum below twice the dimension, which lands inside the grid. |
| Neighbours.Skipped | wasm-game-of-life/src/lib.rs:129-131 | A step is skipped exactly when both of its offsets are 0. |
| Neighbours.ReduceOnce | wasm-game-of-life/src/lib.rs:133-134 | Below twice the modulus, `% n` subtracts `n` at most once. |
| Neighbours.ScanCell | wasm-game-of-life/src/lib.rs:133-134 | The wrapped-around neighbour position is always inside the grid. |
| Neighbours.Scanned | wasm-game-of-life/src/lib.rs:127-137 | The positions read before step (i, j) of the two loops are in range, one at most per step. |
| Neighbours.NeighbourCells | wasm-game-of-life/src/lib.rs:127-137 | The scan reads at most eight positions, all inside the grid. |
| Neighbours.ScannedSkipsCentre | wasm-game-of-life/src/lib.rs:129-131 | The middle step (offsets 0, 0) is always skipped, so at most eight of the nine steps read a cell. |
| Neighbours.ScannedPrefix | wasm-game-of-life/src/lib.rs:127-137 | The scan only appends: what it has read by step (i, j) is a prefix of the whole scan. |
| Neighbours.OneRowScan | wasm-game-of-life/src/lib.rs:127-134 | On a one-row grid the row offsets are `[0, 0, 1]`, so the scan skips two steps and reads 7 positions. |
| Neighbours.OneColumnScan | wasm-game-of-life/src/lib.rs:127-134 | On a one-column grid it likewise reads 7 positions. |
| Neighbours.SingleCellScan | wasm-game-of-life/src/lib.rs:127-134 | On a 1 x 1 grid it skips four steps and reads the cell itself five times. |
| Neighbours.CountAlive | wasm-game-of-life/src/lib.rs:136 | The number of live cells among a list of positions is at most the list's length. |
| Neighbours.CountAliveSnoc | wasm-game-of-life/src/lib.rs:136 | Reading one more position adds that cell's value to the count. |
| Neighbours.CountAlivePrefix | wasm-game-of-life/src/lib.rs:136 | Counting one more position of a list adds the value of the cell there. |
| Neighbours.CountAliveFour | wasm-game-of-life/src/lib.rs:136 | Counting four more positions adds the four values. |
| Neighbours.CountAliveEight | wasm-game-of-life/src/lib.rs:136 | A count over eight positions is the sum of the eight cell values. |
| Neighbours.ReadAt | wasm-game-of-life/src/lib.rs:135-136 | The value read at a position is 0 or 1. |
| Neighbours.ScanCount | wasm-game-of-life/src/lib.rs:126-137 | The running `count` after step (i, j) is at most the number of steps taken. |
| Neighbours.ScanCountIsCount | wasm-game-of-life/src/lib.rs:126-137 | The running `count` is the number of live cells among the positions read so far. |
| Neighbours.CountAliveStep | wasm-game-of-life/src/lib.rs:129-136 | One step adds the value of the cell it reaches, or nothing when it is skipped. |
| Neighbours.SkipStep | wasm-game-of-life/src/lib.rs:129-131 | A step whose offsets are both 0 leaves `count` unchanged. |
| Neighbours.ReadStep | wasm-game-of-life/src/lib.rs:133-136 | Any other step reads inside the buffer and adds the value at the wrapped position. |
| Neighbours.DeltaSum | wasm-game-of-life/src/lib.rs:127-134 | Each offset is at most the dimension. A position plus an offset, the `u32` sum the source computes, is at most `2 * n - 2` (1 when `n` is 1). |
| Neighbours.LiveNeighbours | wasm-game-of-life/src/lib.rs:125-141 | `live_neighbor_count` returns at most 8, so the `u8` never overflows. |
| Neighbours.LiveNeighboursCounted | wasm-game-of-life/src/lib.rs:125-141 | `live_neighbor_count` is the number of live cells among the positions the scan visits. |
| Neighbours.ScanCountDead | wasm-game-of-life/src/lib.rs:126-137 | In an all-dead buffer every partial count is 0. |
| Neighbours.Wrap | wasm-game-of-life/src/lib.rs:133-134 | Stepping off either edge wraps: -1 goes to `n - 1` and `n` goes to 0. |
| Neighbours.TorusNeighbours | wasm-game-of-life/src/lib.rs:127-134 | The eight torus neighbours are in range, eight positions in all. |
| Neighbours.DeltasStep | wasm-game-of-life/src/lib.rs:127-134 | Adding `n - 1`, 0 or 1 modulo `n` steps back one, stays, or steps forward one, wrapping at the edges. |
| Neighbours.ScanIsTorus | wasm-game-of-life/src/lib.rs:125-141 | On a grid of at least 2 x 2, the scan reads exactly the eight torus neighbours, in row-major order. |
| Neighbours.LiveNeighboursTorus | wasm-game-of-life/src/lib.rs:125-141 | On such a grid, `live_neighbor_count` is the number of live cells among the eight torus neighbours. |
| Neighbours.LiveNeighboursSum | wasm-game-of-life/src/lib.rs:125-141 | On such a grid, `live_neighbor_count` is the sum of the values of the eight cells around, wrapping at the edges. |
| Neighbours.CornerWraps | wasm-game-of-life/src/lib.rs:127-134 | On every grid, one-row, one-column and 1 x 1 grids included, the count at (0, 0) reads (height - 1, width - 1): the diagonal wrap-around. |
| Generation.NextGeneration | wasm-game-of-life/src/lib.rs:100-121 | The next buffer has the length of the old one. |
| Generation.NextCellAt | wasm-game-of-life/src/lib.rs:104-114 | The per-cell body of `tick`: the rule applied to the cell at `get_index(row, column)` and its neighbour count. |
| Generation.NextAt | wasm-game-of-life/src/lib.rs:104-114 | The same, addressed by buffer index. |
| Generation.NextAtIndex | wasm-game-of-life/src/lib.rs:104-116 | The next state of the cell at `get_index(row, column)` is the rule applied to that cell and its neighbour count. |
| Generation.NextGenerationAt | wasm-game-of-life/src/lib.rs:100-121 | Each cell of the next generation is the rule applied to its old state and its neighbour count in the old buffer. It is never computed from a partly updated buffer. |
| Generation.DeadStaysDead | wasm-game-of-life/src/lib.rs:100-121 | A universe with no live cell is unchanged by `tick`. |
| Generation.DeadCellStaysDead | wasm-game-of-life/src/lib.rs:104-116 | In an all-dead buffer every cell's next state is dead. |
| Generation.SteppedWrite | wasm-game-of-life/src/lib.rs:102-117 | Writing `next[index]` extends the prefix of stepped cells by one, in loop order, without disturbing earlier cells. |
| Generation.GenerationByCells | wasm-game-of-life/src/lib.rs:100-120 | Once every cell has been stepped, `next` is the next generation. |
| Generation.SteppedCellAt | wasm-game-of-life/src/lib.rs:100-120 | A fully stepped buffer holds the next state at every index. |
| Edits.MarkAlive | wasm-game-of-life/src/lib.rs:154-159 | After `set_cells`, a cell is alive if some listed pair indexes it; every other cell keeps its value. The length is unchanged. |
| Edits.MarkAliveIdempotent | wasm-game-of-life/src/lib.rs:154-159 | Applying the same list twice gives the same buffer as applying it once. |
| Display.RenderedChunk | wasm-game-of-life/src/lib.rs:164-170 | The text from a chunk boundary is that chunk's glyphs, a line break, and the text of the rest. |
| Display.GlyphsSnoc | wasm-game-of-life/src/lib.rs:165-168 | Writing one more cell's glyph extends the line by that glyph. |
| Display.RenderStep | wasm-game-of-life/src/lib.rs:164-170 | One iteration of the outer loop keeps the written text a prefix of the whole rendering. |
| Display.RenderedLength | wasm-game-of-life/src/lib.rs:162-173 | A `width` x `height` grid renders as `height * (width + 1)` characters. |
| Display.RenderedAt | wasm-game-of-life/src/lib.rs:162-173 | Character `row * (width + 1) + column` is the glyph of the cell at (row, column). Position `width` of each line is a line break. |
| Display.FirstLine | wasm-game-of-life/src/lib.rs:164-170 | A non-empty grid renders as its first row, a line break, and the rest. |
| Display.Glyph | wasm-game-of-life/src/lib.rs:166 | ◻ for a dead cell, ◼ for a live one. |
| Display.Glyphs | wasm-game-of-life/src/lib.rs:165-168 | One glyph per cell of a line, as many glyphs as cells. |
| Display.Rendered | wasm-game-of-life/src/lib.rs:162-173 | `Display::fmt`: the buffer cut into chunks of `width` cells, each written as its glyphs and a line break; `RenderedLayout` states its shape. |
| Display.RenderedLayout | wasm-game-of-life/src/lib.rs:162-173 | The whole layout: `height` lines. Each line holds the ◻/◼ glyphs of its row in column order and ends with a line break. |
| Patterns.SingleRowCount | wasm-game-of-life/src/lib.rs:125-141 | On the one-row grid `[Dead, Alive, Dead]` the scan counts one live neighbour for the middle cell. |
| Patterns.SingleRowTorus | wasm-game-of-life/src/lib.rs:127-134 | There the eight torus neighbours of the middle cell include the cell itself twice. |
| Patterns.SingleRowScan | wasm-game-of-life/src/lib.rs:127-137 | The scan reads only seven positions and the middle cell once. |
| Patterns.SingleRowMiddleDies | wasm-game-of-life/src/lib.rs:100-121 | So `tick` kills the middle cell, while the rule applied to its torus count of 2 would keep it alive. |
| Patterns.SingleRowTorusCount | wasm-game-of-life/src/lib.rs:125-141 | There the rule applied to the eight torus neighbours would count 2 live neighbours. |
| Patterns.Side | wasm-game-of-life/src/lib.rs:43-47 | The side of the square grid each pattern is drawn on: 4 for the block, 5 for the blinker. |
| Patterns.Inside | wasm-game-of-life/src/lib.rs:43-47 | The live positions of each pattern: a 2 x 2 square, or three cells of the middle row or of the middle column. |
| Patterns.Picture | wasm-game-of-life/src/lib.rs:43-47 | The row-major buffer of each pattern has `side * side` cells. |
| Patterns.PictureAt | wasm-game-of-life/src/lib.rs:144-146 | A pattern's buffer holds `Alive` at `get_index(r, c)` exactly when (r, c) is inside the pattern. |
| Patterns.InsideValue | wasm-game-of-life/src/lib.rs:136 | The value a position contributes to the count, 0 or 1. |
| Patterns.InsideCount | wasm-game-of-life/src/lib.rs:125-141 | The number of the eight torus neighbours of a cell that lie inside the pattern. |
| Patterns.InsideNeighbours | wasm-game-of-life/src/lib.rs:125-141 | On any buffer whose live cells are exactly a pattern's, `live_neighbor_count` is that number. |
| Patterns.PictureNeighbours | wasm-game-of-life/src/lib.rs:125-141 | On a pattern's own buffer, `live_neighbor_count` is the number of torus neighbours inside the pattern. |
| Patterns.StepsTo | wasm-game-of-life/src/lib.rs:108-114 | The rule takes the pattern's cell at (row, column) to the next pattern's cell there. |
| Patterns.PictureStep | wasm-game-of-life/src/lib.rs:100-121 | If the rule takes every cell of one pattern to the next pattern's, `tick` turns the first grid into the second. |
| Patterns.PictureCellStep | wasm-game-of-life/src/lib.rs:104-116 | The same, for one cell. |
| Patterns.BlockRule | wasm-game-of-life/src/lib.rs:108-114 | A block cell has 3 neighbours in the block and any other cell at most 2, so every cell keeps its state. |
| Patterns.BlockStill | wasm-game-of-life/src/lib.rs:100-121 | The 2 x 2 block on a 4 x 4 grid is a still life: `tick` leaves it unchanged. |
| Patterns.HorizontalRule | wasm-game-of-life/src/lib.rs:108-114 | Under the rule, the end cells of the horizontal bar die, the middle one survives, and the cells above and below it are born. |
| Patterns.VerticalRule | wasm-game-of-life/src/lib.rs:108-114 | The same for the vertical bar, turning it horizontal. |
| Patterns.BlinkerFlips | wasm-game-of-life/src/lib.rs:100-121 | The blinker oscillates with period two on a 5 x 5 grid: one `tick` turns the horizontal bar vertical, the next turns it back. |
| GameOfLife.WrapAdd | wasm-game-of-life/src/lib.rs:133-134 | `(x + delta) % n` is the wrapped neighbour coordinate, and the `u32` sum does not overflow. |
| GameOfLife.OffsetsFit | wasm-game-of-life/src/lib.rs:133-134 | `row + delta_row` and `column + delta_column`, at most `2 * n - 2`, fit in a `u32`. |
| GameOfLife.Universe.Valid | wasm-game-of-life/src/lib.rs:43-47 | The state invariant: `width`, `height` and their product are `u32` values, and the buffer has `width * height` cells. |
| GameOfLife.Universe.constructor | wasm-game-of-life/src/lib.rs:51-71 | `new` builds a 64 x 64 universe. Cell `i` is alive exactly when the `i`-th random draw came out below one half. |
| GameOfLife.Universe.Width | wasm-game-of-life/src/lib.rs:73-75 | `width()` returns the width, which times the height is the buffer length. |
| GameOfLife.Universe.Height | wasm-game-of-life/src/lib.rs:82-84 | `height()` returns the height, which times the width is the buffer length. |
| GameOfLife.Universe.GetCells | wasm-game-of-life/src/lib.rs:148-151 | `get_cells` returns the buffer's contents, `width * height` cells. |
| GameOfLife.Universe.GetIndex | wasm-game-of-life/src/lib.rs:144-146 | `get_index` returns `row * width + column` when that fits in a `u32`. |
| GameOfLife.Universe.SetWidth | wasm-game-of-life/src/lib.rs:77-80 | `set_width` sets the width, keeps the height, and replaces the buffer with `width * height` dead cells. |
| GameOfLife.Universe.SetHeight | wasm-game-of-life/src/lib.rs:86-89 | `set_height` sets the height, keeps the width, and replaces the buffer with `width * height` dead cells. |
| GameOfLife.Universe.LiveNeighbourCount | wasm-game-of-life/src/lib.rs:125-141 | The nested loops return `LiveNeighbours` of the current buffer, the count over the scanned positions. |
| GameOfLife.Universe.Tick | wasm-game-of-life/src/lib.rs:100-121 | After `tick`, the buffer is a fresh array holding `NextGeneration` of the old buffer, and the dimensions are unchanged. |
| GameOfLife.Universe.SetCells | wasm-game-of-life/src/lib.rs:154-159 | After `set_cells`, the buffer is `MarkAlive` of the old one: listed cells alive, all others unchanged. |
| GameOfLife.Universe.Render | wasm-game-of-life/src/lib.rs:162-173 | `render` (via `Display::fmt`) returns `Rendered` of the buffer: for each chunk of `width` cells, one glyph per cell, then a line break. |

## Left out

- `greet`, the `alert` import, the `wee_alloc` allocator and `mod utils` are host glue with no engine logic.
- `cells()` returns a raw pointer into the buffer for the host to read; the model offers `GetCells` instead.
- `Universe.constructor`: the host's `Math::random()` is not modelled. Its 4096 draws become a parameter of booleans, each meaning "the draw was below 0.5".
- Errors returned by the `fmt::Formatter` are not modelled: `Render` builds the whole string.
- `render` calls `to_string`, which goes through `Display::fmt`. The model has one method, `Render`, for both.
- Integer width: `width`, `height`, `row` and `column` are `u32`, and the model uses `nat` with explicit bounds. A debug build panics on overflow and a release build wraps; the model states neither:
  - `Valid` requires `width * height` below 2^32, as the buffer needs.
  - `OffsetsFit` requires `row + delta` to fit for `tick` and `live_neighbor_count`.
  - `GetIndex`, `SetWidth` and `SetHeight` require their products to fit.
- `live_neighbor_count` on an empty dimension: `height - 1` underflows there, and the model's `row < height` precondition excludes it. `tick` never calls it on an empty grid.
- `GameOfLife.Universe.SetCells`: requires every listed pair to index inside the buffer; the source panics on an out-of-range index.
- `GameOfLife.Universe.Render`: requires `width >= 1`; `chunks(0)` panics in the source.
- `GameOfLife.Universe.Tick`: `next` starts as a clone of the buffer. The model states only the final buffer, which the loops overwrite in full.
- Concurrency and the host's view of the buffer (aliasing through the raw pointer) are outside the model.
