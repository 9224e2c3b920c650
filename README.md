# d2ca: a verified model of the Game of Life universe

d2ca is a Conway's Game of Life engine written in Rust for WebAssembly. It has
one object, `D2caUniverse`, which holds a `width` by `height` grid. The grid is
stored as a row-major buffer with one byte per cell: 0 is dead and 1 is alive.
The object offers four things:

- It seeds every cell at random when constructed (`new`).
- It advances one generation in place (`tick`).
- It renders the grid as text (`render`, `Display::fmt`).
- It exposes its dimensions and buffer (`get_width`, `get_height`, `get_cells`).

This project models that object in Dafny.

- `Grid.dfy` (module `Grid`) is the pure specification:
  - the buffer shape and `get_index`;
  - the engine's neighbour count, offsets included, modelled as the code
    computes it except that the offset sum is taken without `u32` overflow,
    which differs only for dimensions of at least 2^31 + 1 (see `Overflow` and
    Findings);
  - the `match` that decides the next state of a cell, and one whole
    generation (`Step`);
  - an independent reference generation: Conway's game on a torus
    (`TorusStep`). `Step` is proved equal to it on every 0/1 grid at least
    two cells wide and high.
- `Universe.dfy` (module `D2ca`) is the `Universe` class. It has the fields
  `width`, `height` and `cells`. Its constructor, `LiveNeighborCount`, `Tick`
  and `Render` are written imperatively, with the source's loops, and each is
  proved to compute the corresponding `Grid` or `Render` function.
- `Render.dfy` (module `Render`) is the text format:
  - each chunk of `width` cells becomes a line of `□` (dead) and `■` (any
    other byte), ended by a line feed;
  - it fixes the shape of the text;
  - reading the glyphs back gives the buffer again.
- `Patterns.dfy` (module `Patterns`) checks `Step` against well-known
  patterns:
  - a lone cell dies;
  - a 2x2 block is a still life;
  - a blinker oscillates with period two.
- `Overflow.dfy` (module `Overflow`) covers the neighbour coordinate computed
  in `u32` arithmetic, where it can overflow (see Findings).

The model follows the code where its behaviour is surprising:

- `tick` skips an offset pair when both offset values are zero. On a grid
  one cell wide or high, the "back one" offset `n - 1` is itself 0, so more
  pairs are skipped. On a 1x1 grid the cell is counted five times. On a grid
  one row high and at least two wide, the cell is counted once and its left
  and right neighbours three times each, so a 1x3 all-alive grid counts 7
  where the torus has 8; a grid one column wide behaves the same way.
- `new` and `tick` have no precondition on the dimensions: with a zero
  dimension their loops are empty. Only rendering needs `width > 0`, because
  `chunks(0)` panics.
- A byte other than 0 or 1 falls through to the `otherwise` arm of the
  `match` and is kept unchanged.
- The `u8` count is added modulo 256.

## Model

| member | source | states |
|---|---|---|
| `Grid.Index` | src/lib.rs:34-36 | the position `row * width + col` of an in-grid cell lies inside the buffer |
| `Grid.IndexInverse` | src/lib.rs:34-36 | the row and column are the quotient and remainder of the position by the width |
| `Grid.IndexOnto` | src/lib.rs:34-36 | every buffer position is the index of some in-grid row and column |
| `Grid.IndexInjective` | src/lib.rs:34-36 | two cells share a position exactly when they are the same cell |
| `Grid.Wrap` | src/lib.rs:46-47 | the neighbour coordinate `(x + delta) % n`, taken without overflow, is inside the grid |
| `Grid.Deltas` | src/lib.rs:40-41 | the offsets visited along one axis are `n - 1`, 0 and 1, and the first is 0 exactly when the dimension is 1 |
| `Grid.Term` | src/lib.rs:42-49 | one visited pair contributes a single byte, and the skipped pair (both offsets 0) contributes nothing |
| `Grid.ColsSum` | src/lib.rs:41-50 | the inner loop's running sum: the terms of the first `j` column offsets for one row offset; `LiveNeighborCount` keeps it as its inner-loop invariant |
| `Grid.RowsSum` | src/lib.rs:40-51 | the outer loop's running sum: the inner sums of the first `i` row offsets; `LiveNeighborCount` keeps it as its outer-loop invariant |
| `Grid.NeighborSum` | src/lib.rs:38-53 | the sum over all nine offset pairs, as the nested loops add them; its meaning is stated by `NeighborSumIsTorus`, `NeighborSumOneByOne` and `NeighborSumOneRow` |
| `Grid.NeighborCount` | src/lib.rs:49 | the sum reduced modulo 256, as the `u8` count holds it; `NeighborCountBounded` states its range |
| `Grid.WrapBackIsPredecessor` | src/lib.rs:40-47 | adding the offset `n - 1` modulo `n` steps back one cell: row 0 goes to row `n - 1`, any other row `x` to `x - 1` |
| `Grid.NeighborSumIsTorus` | src/lib.rs:38-53 | on a grid at least 2x2, the engine's sum over the visited offsets equals the sum of the eight toroidal neighbours |
| `Grid.NeighborSumOneByOne` | src/lib.rs:40-44 | on a 1x1 grid the value-based skip leaves five visited pairs, all on the cell itself: the sum is five times the cell |
| `Grid.NeighborSumOneRow` | src/lib.rs:40-47 | on a grid one row high and at least two wide, the sum is three times the left neighbour, plus the cell, plus three times the right neighbour |
| `Grid.NeighborSumOneColumn` | src/lib.rs:40-47 | on a grid one column wide and at least two high, the sum is three times the cell above, plus the cell, plus three times the cell below |
| `Grid.OneByThreeAllAlive` | src/lib.rs:40-47 | on a 1x3 all-alive grid every cell's count is 7 while its toroidal neighbours number 8 |
| `Grid.NeighborCountBounded` | src/lib.rs:38-53 | on a 0/1 buffer the sum is at most 8, so the `u8` count does not wrap and equals the sum |
| `Grid.Rule` | src/lib.rs:77-83 | for a 0/1 cell the next state is alive exactly when it has three live neighbours, or has two and is alive, and it stays 0/1; any other byte is returned unchanged |
| `Grid.Step` | src/lib.rs:68-90 | a generation keeps the buffer's length |
| `Grid.NextAt` | src/lib.rs:73-85 | the next state written at one buffer position: the rule applied to its old byte and its count; `StepAt` states it per cell |
| `Grid.StepAt` | src/lib.rs:71-85 | every cell of the next generation is the rule applied to that cell's old state and its old neighbour count |
| `Grid.StepPreservesBinary` | src/lib.rs:77-83 | a generation of a 0/1 buffer is again a well-shaped 0/1 buffer |
| `Grid.StepKeepsOtherValues` | src/lib.rs:82 | a byte other than 0 or 1 survives a generation unchanged |
| `Grid.CellAtInRange` | src/lib.rs:34-36 | inside the grid, the toroidal cell lookup is the buffer entry at `get_index` |
| `Grid.TorusStepAt` | src/lib.rs:77-83 | the reference generation at a cell is Conway's B3/S23 rule on its toroidal neighbours |
| `Grid.StepIsTorusStepAt` | src/lib.rs:68-90 | at any one position of a 0/1 grid at least 2x2, the engine's next state is the reference state |
| `Grid.StepIsTorusStep` | src/lib.rs:68-90 | on a 0/1 grid at least 2x2, the engine's generation is exactly Conway's game on the torus |
| `D2ca.Seed` | src/lib.rs:57-59 | the seeded buffer has one cell per draw, every cell is 0 or 1, and a cell is alive exactly when its draw is odd |
| `D2ca.Universe.constructor` | src/lib.rs:56-65 | the new universe has the given dimensions and a 0/1 buffer of `width * height` cells seeded from the draws |
| `D2ca.Universe.Cells` | src/lib.rs:29-31 | the exposed buffer holds exactly `width * height` bytes |
| `D2ca.Universe.LiveNeighborCount` | src/lib.rs:38-53 | the nested loops return the `u8` count over the visited offset pairs, which is at most 8 on a 0/1 buffer |
| `D2ca.Universe.Tick` | src/lib.rs:68-90 | the dimensions are kept and the new buffer is the generation of the old one: every cell gets the rule applied to its old state and old neighbour count, and a 0/1 buffer stays 0/1 |
| `D2ca.Universe.Render` | src/lib.rs:93-109 | the string written by `render` is the rendering of the buffer chunked by the width |
| `Render.Glyph` | src/lib.rs:103 | a cell is drawn as `□` exactly when its byte is 0, and as `■` otherwise |
| `Render.Text` | src/lib.rs:99-109 | the rendering: each chunk of `width` cells as its glyphs and a line feed; `TextLength`, `TextAt` and `TextRoundTrip` state its shape and content |
| `Render.Line` | src/lib.rs:102-104 | a chunk yields one glyph per cell |
| `Render.TextLength` | src/lib.rs:99-109 | a `w`-by-`h` grid renders as `h` lines of `w + 1` characters |
| `Render.TextAt` | src/lib.rs:99-109 | character `c` of line `r` is the glyph of cell (`r`, `c`), which is `□` exactly when the cell is 0; the character after the last column is the line feed |
| `Render.TextGlyphAt` | src/lib.rs:101-104 | on every full row, the character at column `c` of that row's line is the glyph of the cell there |
| `Render.TextNewlineAt` | src/lib.rs:106 | every full row's line ends in a line feed right after its `w` glyphs |
| `Render.DecodeChunk` | src/lib.rs:101-106 | decoding one chunk's glyphs and its line feed yields that chunk |
| `Render.TextRoundTrip` | src/lib.rs:99-109 | reading the glyphs of the rendering of a 0/1 buffer back, skipping line feeds, yields the buffer |
| `Patterns.LiveExactlyStep` | src/lib.rs:68-90 | on a 0/1 grid given by its set of live positions, a cell's next state is the rule on the set's toroidal neighbours |
| `Patterns.LoneCellDies` | src/lib.rs:77-83 | on a 3x3 grid a single live cell dies and every other cell stays dead |
| `Patterns.BlockIsStill` | src/lib.rs:77-83 | a 2x2 block in the middle of a 4x4 grid is unchanged by a generation |
| `Patterns.BlinkerTurnsVertical` | src/lib.rs:77-83 | on a 5x5 grid a horizontal line of three becomes a vertical line of three |
| `Patterns.BlinkerTurnsHorizontal` | src/lib.rs:77-83 | on a 5x5 grid a vertical line of three becomes a horizontal line of three |
| `Patterns.BlinkerPeriodTwo` | src/lib.rs:68-90 | the blinker changes in one generation and returns to itself in two |
| `Overflow.WrapU32` | src/lib.rs:46-47 | the neighbour coordinate with the `u32` sum wrapping modulo 2^32 is in range, and it agrees with the torus coordinate whenever the sum does not overflow |
| `Overflow.WrapU32AgreesUpToHalf` | src/lib.rs:46-47 | for dimensions up to 2^31 the `u32` coordinate is always the torus coordinate |
| `Overflow.WrapU32Threshold` | src/lib.rs:46-47 | at dimension 2^31 + 1, the smallest where the sum can wrap, the `u32` coordinate of row 2^31 with offset 2^31 is 0 while the torus coordinate is 2^31 - 1 |
| `Overflow.WrapU32Counterexample` | src/lib.rs:46-47 | on a 1 by 2^32 - 1 grid (within the size bound of `new`), the row above row 2^32 - 2 comes out as 2^32 - 4, not 2^32 - 3 |

## Left out

- The WebAssembly bindings are not modelled: `wasm_bindgen` and the optional
  `wee_alloc` global allocator (src/lib.rs:3-9, 13, 20). They change no
  behaviour of the grid.
- The `utils` module (src/lib.rs:1) is not part of this model.
- `D2ca.Universe.Width` and `D2ca.Universe.Height` are plain field reads
  (`get_width`, `get_height`). They carry no contract because there is
  nothing to state beyond the field itself.
- D2ca.Universe.Cells: `get_cells` returns a raw pointer to the buffer. The
  model returns the buffer as a sequence, so neither the pointer nor the
  aliasing it allows is modelled.
- D2ca.Seed: `rand::random::<u32>()` is replaced by a sequence of draws the
  caller supplies, one per cell in row-major order. The randomness itself
  is not modelled.
- D2ca.Universe.constructor: the one-cell-per-draw precondition
  `width * height < 2^32` is required rather than modelled. In Rust, a
  larger product panics in a debug build and wraps in a release build.
- D2ca.Universe.Render: a `Formatter` write error (the `?` at
  src/lib.rs:104, 106) cannot happen when writing to a `String`, so it is
  not modelled. `width == 0` makes `chunks` panic, and it is excluded by the
  precondition.
- The neighbour count uses the unbounded sum `Grid.Wrap` rather than the
  `u32` sum. The difference is confined to dimensions of at least 2^31 + 1 and is
  stated in `Overflow` (see Findings). The `height - 1` and `width - 1`
  offsets are never computed for a zero dimension, because the loops of
  `tick` are then empty.
- D2ca.Universe.LiveNeighborCount: the `u8` addition is modelled as wrapping
  modulo 256, which is the release-build behaviour. A debug build would
  panic instead. On a 0/1 buffer the sum is at most 8, so neither happens.
- The `pub type Universe = D2caUniverse` alias (src/lib.rs:112) is just a
  name. The class is called `Universe`.

## Findings

| source | as written | input that shows it | evidently intended | confidence | as-written member | corrected member |
|---|---|---|---|---|---|---|
| src/lib.rs:46-47 | `(row + delta_row) % self.height` adds in `u32`, so with `delta_row = height - 1` the sum can reach 2^32 once the dimension is at least 2^31 + 1 | width 1, height 2^32 - 1, row 2^32 - 2: the release build gives row 2^32 - 4 and the debug build panics. `new` can allocate such a grid only on a 64-bit target; on wasm32 a `Vec<u8>` is capped at `isize::MAX` = 2^31 - 1 bytes, so `collect` panics first (the smallest case, height 2^31 + 1, is out of reach there too) | the row above, 2^32 - 3, computed as `(row + height - 1) % height` without overflow | not executed | `Overflow.WrapU32`, `Overflow.WrapU32Threshold`, `Overflow.WrapU32Counterexample` | `Grid.Wrap`, `Grid.WrapBackIsPredecessor` |
