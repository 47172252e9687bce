# Game of Life grid engine — Dafny model

This project models the grid engine `Universe` of a WebAssembly Game of Life, in both of its
copies: the current `rust/src/lib.rs` (with a `speed` field, a sized constructor, `reset`,
`random` and `resize`) and the older fixed 200 x 200 `src/lib.rs`.

A universe is a `width`, a `height` and a dense row-major buffer of cells (`Dead` = 0,
`Alive` = 1) in which cell (row, column) sits at `row * width + column`. A generation counts each
cell's live neighbours on a torus, walking the delta lists `[n - 1, 0, 1]` for rows and columns and
skipping the (0, 0) pair. It then applies the Game of Life rule table, computing the whole new
buffer from the old one before swapping it in. `tick` runs `speed` such generations. The mutators
resize and clear the buffer, toggle a cell, seed a list of cells Alive, or refill the buffer at
random. `render` prints the buffer as text.

Modules:

- `Cells` (cells.dfy): `Cell`, `Toggle`, and the `Outcome` type used for Rust panics.
- `Torus` (torus.dfy): `get_index` and `live_neighbor_count`. The count is written literally as
  folds over the delta lists, together with the loop that computes it.
- `Life` (life.dfy): the rule table, one generation (`Step`), n generations (`StepN`), and the
  loop of `tick` that fills the next buffer.
- `Buffer` (buffer.dfy): the Dead fill, the random fill, single-cell toggle, and `set_cells`.
- `Render` (render.dfy): `Display::fmt` and its inverse, `Unrender`.
- `Engine` (engine.dfy): the current `Universe` and every public operation on it.
- `Legacy` (legacy.dfy): the older `Universe`. It is shown to be the current one run at speed 1.
- `Overflow` (overflow.dfy): the buffer length computed in wrapping `u32` arithmetic, as a
  release build does it (see Findings).

Index arithmetic is written with `Torus.Times`, `Torus.Quot` and `Torus.Rem`, which compute a
product by repeated addition and a quotient and remainder by repeated subtraction. The lemmas
`Torus.TimesIsProduct` and `Torus.QuotRemAreDivMod` prove them equal to `*`, `/` and `%`, so
`GetIndex` is `row * width + column` and `Wrap` is `(delta + x) % n`, as in the source.

A Rust panic (indexing past the buffer, `chunks(0)`) is an `Outcome.Panic`. It ends the call
without a result. The host's random source is a parameter `draw: nat -> bool`, where `draw(i)`
stands for "the i-th `Math.random()` was below 0.5".

Three behaviours of the code are easy to overlook, and the model keeps them:

- The count is not always a count of eight distinct neighbours. The code walks the delta lists
  `[n - 1, 0, 1]`. On a grid with one row or one column that list holds 0 twice, so more than one
  pair is skipped and the same cell can be counted several times. `Torus.UniformCount` pins this
  down: 8 pairs are counted normally, 7 on a single row or column, and 5 on a 1 x 1 grid.
- Out-of-range coordinates are not rejected one by one. `toggle_cell` and `set_cells` compute
  `row * width + column` and panic only when that index is past the end of the buffer, so
  `(0, width)` addresses cell `(1, 0)`.
- `set_speed(0)` is accepted, and `tick` is then a no-op.

## Model

| member | source | states |
|---|---|---|
| Cells.Cell.Toggle | rust/src/lib.rs:15-20 | `toggle` always changes the cell, and the two values sum to 1: Alive becomes Dead and Dead becomes Alive |
| Cells.ToggleInvolution | rust/src/lib.rs:15-20 | toggling a cell twice gives back its original state |
| Torus.TimesIsProduct | rust/src/lib.rs:37-39 | the repeated-addition product used for `row * self.width` and for the buffer length `width * height` equals the product |
| Torus.QuotRemAreDivMod | rust/src/lib.rs:52-53 | quotient and remainder by repeated subtraction are unsigned `/` and `%` |
| Torus.Rem | rust/src/lib.rs:52-53 | `x % n` is below n and at most x, so a wrapped coordinate is always in range |
| Torus.GetIndex | rust/src/lib.rs:37-39 | row `row` occupies the positions from `row * width` up to `(row + 1) * width`, and the index falls inside that stretch iff column < width |
| Torus.IndexInBounds | rust/src/lib.rs:37-39 | for row < height and column < width the index is below width * height, and dividing it by the width gives back (row, column) |
| Torus.IndexDecode | rust/src/lib.rs:37-39 | every buffer position below width * height is the index of the coordinate (i / width, i % width), which is in range |
| Torus.NeighborCount | rust/src/lib.rs:44-59 | the fold over the delta lists, with the (0, 0) pair skipped, is at most 8, so the `u8` count cannot overflow |
| Torus.LiveNeighborCount | rust/src/lib.rs:44-59 | the nested loop over the delta lists, with `continue` on the (0, 0) pair, computes the fold `NeighborCount`, and the result is at most 8 |
| Torus.NeighborCountExpand | rust/src/lib.rs:44-59 | the count is the sum of the nine (delta_row, delta_column) contributions, taken in the order the loop visits them |
| Torus.DeltasWrap | rust/src/lib.rs:46-53 | on a ring of n positions, the deltas n - 1, 0 and 1 select the previous coordinate (wrapping 0 to n - 1), the same one, and the next one (wrapping n - 1 to 0) |
| Torus.TopLeftWraps | rust/src/lib.rs:46-53 | row 0's upper neighbour is row height - 1, and column 0's left neighbour is column width - 1 |
| Torus.NeighborCountIsMoore | rust/src/lib.rs:44-59 | on a grid of at least 2 x 2 the count equals an independent sum over the eight named Moore neighbours (up-left, up, …, down-right) |
| Torus.MooreDistinct | rust/src/lib.rs:46-53 | on a ring of at least 3 positions the previous, same and next coordinates are pairwise distinct, so the eight neighbours are eight different cells |
| Torus.UniformCount | rust/src/lib.rs:44-59 | on an all-Dead grid every count is 0; on an all-Alive grid it is 8, or 7 with one row or one column, or 5 on 1 x 1, because 0 occurs twice in the delta list of a length-1 ring |
| Torus.NeighborCountLocal | rust/src/lib.rs:44-59 | two buffers that agree on the 3 x 3 toroidal window around a cell give it the same count |
| Life.Rule | rust/src/lib.rs:108-123 | the match arms in source order: an Alive cell stays Alive iff it has 2 or 3 live neighbours, and a Dead cell becomes Alive iff it has exactly 3 |
| Life.Step | rust/src/lib.rs:101-127 | one generation yields a buffer of the same width * height cells; what each cell becomes is stated by `Life.StepAt` |
| Life.StepAt | rust/src/lib.rs:101-127 | in one generation, the new cell at (row, column) is the rule applied to the old cell and its count in the old buffer |
| Life.StepAtIndex | rust/src/lib.rs:102-125 | the same, stated per buffer position i, with (i / width, i % width) in range |
| Life.StepRuleTable | rust/src/lib.rs:108-123 | after one generation the cell at (row, column) is Alive iff it was Alive with 2 or 3 live neighbours, or Dead with exactly 3 |
| Life.StepEverywhere | rust/src/lib.rs:102-127 | the rule table holds at every (row, column) of the grid at once |
| Life.StepLocal | rust/src/lib.rs:101-127 | a cell's next state depends on nothing but the old 3 x 3 window around it |
| Life.StepAllDead | rust/src/lib.rs:108-123 | an all-Dead buffer is a fixed point of a generation |
| Life.StepAllAlive | rust/src/lib.rs:108-123 | an all-Alive buffer is entirely Dead after one generation, whatever the grid size |
| Life.StepN | rust/src/lib.rs:100-129 | any number of generations keeps the buffer at width * height cells |
| Life.StepNAdd | rust/src/lib.rs:100-129 | running a generations and then b more equals running a + b |
| Life.Generation | rust/src/lib.rs:101-127 | filling a clone of the buffer row by row, reading only the old buffer, produces exactly the whole-buffer step |
| Buffer.DeadBuffer | rust/src/lib.rs:167 | the cleared buffer has the requested length and every cell is Dead |
| Buffer.RandomBuffer | rust/src/lib.rs:81-91 | the random buffer has width * height cells, and cell i is Alive iff draw i was below 0.5 |
| Buffer.ToggleAt | rust/src/lib.rs:161-164 | past the buffer it panics with the index and the length; otherwise exactly the one cell is flipped and every other cell is kept |
| Buffer.ToggleAtTwice | rust/src/lib.rs:161-164 | toggling the same index twice restores the buffer |
| Buffer.SetAlive | rust/src/lib.rs:71-76 | it succeeds iff every listed index is inside the buffer; a panic names the first listed pair whose index is past the end; on success a cell is Alive iff it was listed or already Alive, and unlisted cells keep their value |
| Buffer.SetAliveAppend | rust/src/lib.rs:71-76 | seeding a list and then more pairs is the same as seeding the concatenation; a panic in the first part stops the rest |
| Buffer.SetAliveDuplicate | rust/src/lib.rs:71-76 | listing a pair again changes nothing further |
| Buffer.SetAliveIdempotent | rust/src/lib.rs:71-76 | seeding the same list again leaves the buffer unchanged |
| Engine.New | rust/src/lib.rs:174-184 | a new universe has speed 1, the given dimensions and width * height cells, cell i drawn from the random source |
| Engine.Tick | rust/src/lib.rs:99-130 | `tick` keeps width, height, speed and the buffer length; at speed 0 it changes nothing; at speed 1 it is one generation |
| Engine.TickLoop | rust/src/lib.rs:99-130 | the counted loop of `speed` passes, each filling a clone and swapping it in, performs exactly `speed` generations |
| Engine.TickSpeedEquivalence | rust/src/lib.rs:100-129 | one `tick` at speed n gives the same buffer as n `tick`s at speed 1 |
| Engine.TickSpeedSplit | rust/src/lib.rs:100-129 | each pass completes before the next: speed a + b equals speed a followed by speed b |
| Engine.TickTimes | rust/src/lib.rs:99-130 | any number of `tick`s keeps the dimensions, the speed and the length invariant |
| Engine.SetWidth | rust/src/lib.rs:132-135 | `set_width` installs the new width, keeps height and speed, and leaves a buffer of width * height cells, all Dead |
| Engine.SetHeight | rust/src/lib.rs:141-144 | `set_height` installs the new height, keeps width and speed, and leaves a buffer of width * height cells, all Dead |
| Engine.SetSpeed | rust/src/lib.rs:150-152 | `set_speed` changes the speed and nothing else |
| Engine.ToggleCell | rust/src/lib.rs:161-164 | it succeeds iff row * width + column is inside the buffer; then only that cell is flipped, and the dimensions and speed stay |
| Engine.ToggleCellTwice | rust/src/lib.rs:161-164 | an in-range coordinate never panics, and toggling it twice restores the universe |
| Engine.SetCells | rust/src/lib.rs:71-76 | the listed cells become Alive and every other cell and field stays; an index past the buffer panics |
| Engine.SetCellsInRange | rust/src/lib.rs:71-76 | a list of in-range coordinates never panics, and each listed coordinate is Alive afterwards |
| Engine.Reset | rust/src/lib.rs:166-168 | `reset` keeps the dimensions and speed and makes every cell Dead |
| Engine.Random | rust/src/lib.rs:170-172 | `random` keeps the dimensions and speed and redraws every cell from the random source |
| Engine.Resize | rust/src/lib.rs:186-190 | `resize` installs both dimensions, keeps the speed, and leaves width * height cells, all Dead |
| Engine.ResizeForgetsContent | rust/src/lib.rs:186-190 | the result of `resize` does not depend on the old cells, and equals `set_width` followed by `set_height` |
| Engine.Render | rust/src/lib.rs:192-194 | `render` panics iff width is 0; otherwise the text has height * (width + 1) characters and height newlines, line r (from offset r * (width + 1)) is row r's glyphs followed by a newline, and reading it back gives the buffer |
| Engine.Run | rust/src/lib.rs:94-195 | every universe reached by any sequence of public calls still has exactly width * height cells |
| Render.Glyph | rust/src/lib.rs:203 | a cell's glyph is never a newline, and it is U+25FC exactly for an Alive cell (U+25FB for Dead) |
| Render.Lines | rust/src/lib.rs:201-207 | the `chunks(width)` loop writes every cell: reading the text back gives the buffer, whatever its length |
| Render.Render | rust/src/lib.rs:199-211 | `chunks(0)` panics for a zero width whatever the buffer holds; every positive width succeeds, and `Unrender` of the text gives back the buffer |
| Render.RenderShape | rust/src/lib.rs:199-211 | for height rows of width cells the text has height * (width + 1) characters; line r starts at r * (width + 1) and holds row r's glyphs (U+25FB for Dead, U+25FC for Alive), then a newline |
| Render.RenderLineCount | rust/src/lib.rs:199-211 | the text of height rows holds exactly height newlines |
| Legacy.New | src/lib.rs:132-152 | `new` gives width = height = 200 and a buffer of exactly 40000 cells drawn from the random source |
| Legacy.Tick | src/lib.rs:72-103 | `tick` keeps the dimensions and the buffer length, and every new cell is the rule applied to the old cell and its count in the old buffer |
| Legacy.SetWidth | src/lib.rs:105-108 | `set_width` resizes the buffer to width * height and fills it with Dead |
| Legacy.SetHeight | src/lib.rs:114-117 | `set_height` resizes the buffer to width * height and fills it with Dead |
| Legacy.ToggleCell | src/lib.rs:127-130 | `toggle_cell` flips exactly the cell at row * width + column and nothing else, or panics past the buffer |
| Legacy.SetCells | src/lib.rs:62-67 | `set_cells` sets each listed cell Alive and touches no other index, or panics past the buffer |
| Legacy.Render | src/lib.rs:154-173 | `render` panics iff width is 0; otherwise line r (from offset r * (width + 1)) is row r's glyphs followed by a newline, there are height lines and height * (width + 1) characters, and reading the text back gives the buffer |
| Legacy.LiftCommutes | src/lib.rs:72-130 | each operation of the older engine is the current engine's operation on the same universe at speed 1 |
| Overflow.ResizeAsWritten | rust/src/lib.rs:166-168 | with `u32` wrap-around the cleared buffer has exactly (width * height) mod 2^32 cells, all Dead |
| Overflow.ResizeAsWrittenAgrees | rust/src/lib.rs:186-190 | while width * height is below 2^32, the code as written agrees with `Engine.Resize` |
| Overflow.ResizeAsWrittenLosesCells | rust/src/lib.rs:186-190 | `resize(65536, 65536)` leaves an empty buffer behind a 65536 x 65536 universe, so the length invariant fails |

## Findings

| source | as written | input that shows it | evidently intended | confidence | as-written member | corrected member |
|---|---|---|---|---|---|---|
| rust/src/lib.rs:166-168 | `(0..self.width * self.height)` multiplies in `u32`, which wraps in a release build. The same product sizes the buffer in `set_width` (134), `set_height` (143) and `get_random_universe` (82), and in src/lib.rs:107, 116 and 137 | `resize(65536, 65536)`: the product wraps to 0, so the buffer is empty while the dimensions say 65536 x 65536. The next `tick` reads cell (0, 0) at index 0 and panics | the buffer holds exactly width * height cells, as `tick`'s indexing assumes | low: it needs a caller passing dimensions whose product reaches 2^32; a build with overflow checks panics at the multiplication instead; not executed | Overflow.ResizeAsWritten, Overflow.ResizeAsWrittenLosesCells | Engine.Resize |

## Left out

- `get_cells`, `width` and `height` are plain field reads: they are the fields of `Engine.Universe` and `Legacy.Universe`.
- `cells()` hands the buffer's raw address to the host. It has no logic beyond a read of `cells`.
- `js_sys::Math::random()` is host code. Its result `< 0.5` is the injected `draw(i)`.
- `utils::set_panic_hook`, the `wasm_bindgen` attributes and `extern crate js_sys` are build and debug glue.
- The host page (`web/src/js/life.js`) is left out: canvas drawing, click and resize handlers, and animation scheduling. It only calls into the engine.
- Torus.NeighborCount: uses exact arithmetic for `(delta + row) % height`. In `u32`, `height - 1 + row` wraps only when height exceeds 2^31. That needs a buffer of more than 2^31 cells, which a wasm32 `Vec` cannot hold.
- Engine.ToggleCell: computes `row * width + column` exactly. The `u32` wrap for coordinates so large that this product reaches 2^32 is not modelled. The same holds for `Engine.SetCells`, `Legacy.ToggleCell` and `Legacy.SetCells`.
- Engine.SetCells: a panic ends the whole call with no result. The cells set before the failing pair are not visible, because a panic in WebAssembly traps the instance.
- Engine.Resize: the buffer length is exact. The `u32` wrap of `width * height` is modelled only in `Overflow` (see Findings). The same holds for `Engine.SetWidth`, `Engine.SetHeight`, `Engine.Reset`, `Engine.Random`, `Engine.New` and the `Legacy` mutators.
- The glider, block and blinker scenarios are not proved on concrete grids. Each needs one concrete neighbour computation per cell. General fixed-point facts are proved instead: `Life.StepAllDead` and `Life.StepAllAlive`.
