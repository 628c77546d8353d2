# Rusty Sandfall grid, modelled in Dafny

Rusty Sandfall is a falling-sand toy. Its only logic is the `Grid` in
`src/main.rs`. The grid is a `cols` x `rows` field of cells, each empty or
holding a grain, with row 0 at the top.

- `new` builds an empty grid.
- `get` and `set` read and write one cell. Off-grid reads return empty and
  off-grid writes are ignored.
- `random_fill` seeds every row except the bottom one.
- `step` settles the sand once. It scans rows `rows - 2` up to `0`, each row
  left to right. An occupied cell above an empty cell takes one random draw.
  If the draw exceeds 0.08 the grain falls one row. Otherwise it skips two
  rows, provided that cell reads as empty.
- `draw` paints the grid into an image, gold for a grain and black for an
  empty cell.

The model has four modules, one file each:

- `Cells` (cells.dfy): the grid as a value, `seq<seq<bool>>` indexed
  `g[y][x]`. It has `Blank` (what `new` builds), `At` (what `get` reads),
  `Put` (what `set` writes) and grain counts per column and for the whole
  grid.
- `Fill` (fill.dfy): `Seeded`, the grid `random_fill` produces from a grid
  and the draws.
- `Settle` (settle.dfy): `StepSweep`, the grid `step` produces from a grid
  and the draws. It is written as a left fold (`Visit`, `ScanRow`,
  `ScanRows`) in the source's visiting order. The fold also keeps a log of
  the moves it made. The lemmas about `step` are proved over this fold and
  its log.
- `Sandfall` (grid.dfy): the class `Grid`. Its `cells` field is replaced
  cell by cell by `Set`, as the source mutates its `Vec<Vec<bool>>`. Its
  methods `RandomFill`, `Step` and `Draw` keep the source's nested loops.
  Each one is proved equal to its specification function, or it states the
  image it paints. `Colour` is the two-colour image palette, and the image is
  an `array2<Colour>` indexed `[x, y]`.

Randomness is passed in as functions:

- `step` takes `straight: nat -> bool`. `straight(k)` is true when the k-th
  draw of that call exceeded 0.08. One draw is taken per eligible cell, in
  scan order.
- `random_fill` takes `below: (nat, nat) -> bool`. `below(x, y)` is true when
  the draw for cell (x, y) fell below that row's probability.

Behaviour of the code that the model keeps as written:

- **A skip from row `rows - 2` destroys the grain.** Its target is row
  `rows`, which `get` reads as empty, so the branch is taken. The cell is
  cleared and the write that should place the grain is ignored.
  `StepConserves` proves the exact accounting: grains after the step plus
  grains lost equal grains before, with lost grains counted from the move
  log. `SkipOffBottomDestroysGrain` shows a grain vanishing.
  `TwoGrainColumn` shows a 4 x 4 grid with grains at (1, 0) and (1, 2) and
  two skip draws. The grain at (1, 2) is destroyed and the grain at (1, 0)
  lands at (1, 2). The upper grain is not blocked, because row 2 is scanned
  first.
- **`set` writes unconditionally.** The grid holds no pixel buffer, so
  nothing keeps a buffer in step with the cells, and writes are not skipped
  when the value is unchanged. `draw` repaints every pixel on each call.
- **`new` accepts a zero width or height.** Only `random_fill` and `step`
  need `rows >= 1`, because they compute `rows - 1` on `usize`, which
  underflows at 0.

## Model

| member | source | states |
|---|---|---|
| `Cells.Blank` | src/main.rs:11-17 | the grid `new` builds has `rows` rows of `cols` cells, every one empty |
| `Cells.BlankIsEmpty` | src/main.rs:11-17 | a new grid holds no grain, and `get` reads every coordinate of it as empty |
| `Sandfall.Grid.constructor` | src/main.rs:11-17 | `new(w, h)` gives `cols == w`, `rows == h` and cells that all read as empty |
| `Cells.At` | src/main.rs:31-36 | reading a cell as `get` does: false whenever `x >= cols` or `y >= rows`, the stored cell otherwise |
| `Sandfall.Grid.Get` | src/main.rs:31-36 | `get` is false whenever `x >= cols` or `y >= rows`, and is the stored cell otherwise |
| `Cells.Put` | src/main.rs:37-41 | an on-grid `set` replaces exactly that one cell and keeps the grid's shape; every other cell keeps its value |
| `Sandfall.Grid.Set` | src/main.rs:37-41 | after `set(x, y, v)` on the grid `get(x, y) == v`, every other coordinate reads as before, and an off-grid write leaves the cells unchanged |
| `Cells.GetAfterSet` | src/main.rs:31-41 | `get` after `set` reads the written value at the written cell and the old value elsewhere; an off-grid `set` is the identity |
| `Cells.ColumnCountPut` | src/main.rs:37-41 | a `set` changes its own column's grain count by new value minus old value, and no other column's |
| `Cells.OccupiedPut` | src/main.rs:37-41 | a `set` changes the grid's grain count by new value minus old value; an off-grid `set` changes nothing |
| `Cells.CoversCounts` | src/main.rs:24-26 | turning cells on never lowers the grain count of any column or of the grid |
| `Fill.Seeded` | src/main.rs:21-27 | `random_fill` never clears a cell, leaves the bottom row exactly as it was, turns on each cell above the bottom row whose draw hit, and turns on no other cell |
| `Fill.SeededNeverRemoves` | src/main.rs:21-27 | after `random_fill` every column and the whole grid hold at least as many grains as before |
| `Fill.FreshFillBottomEmpty` | src/main.rs:21-27 | filling a new grid leaves its bottom row entirely empty |
| `Sandfall.Grid.RandomFill` | src/main.rs:18-30 | the nested loops produce exactly `Seeded` of the old cells, and the grain count does not fall |
| `Settle.Eligible` | src/main.rs:45 | the move condition: the cell is on the grid and holds a grain, and the cell below is empty or lies below the bottom row |
| `Settle.Visit` | src/main.rs:45-53 | the rule for one cell keeps the grid's shape |
| `Settle.VisitEffect` | src/main.rs:45-53 | an ineligible cell takes no draw and changes nothing; an eligible one takes exactly one draw; only its own column, rows `y` to `y + 2`, can change; the bottom row is never cleared; at most one move is logged, one or two rows down |
| `Settle.VisitMoves` | src/main.rs:45-53 | a visit that logs no move, a blocked skip included, leaves the cells unchanged; a logged move empties its source cell and, when its target is on the grid, fills a target that was empty; every cell that changed is the source or the target of the move this visit logged |
| `Settle.MoveConserves` | src/main.rs:47-52 | clearing a grain and placing it in an empty or off-grid cell below keeps grains plus lost grains the same, per column and in total |
| `Settle.VisitConserves` | src/main.rs:45-53 | one visit keeps grains plus lost grains the same, per column and in total |
| `Settle.ScanRow` | src/main.rs:44-55 | scanning a row left to right keeps the grid's shape |
| `Settle.ScanRowFrame` | src/main.rs:44-55 | scanning a row up to column `n` leaves the columns from `n` on untouched |
| `Settle.ScanRowAppends` | src/main.rs:44-55 | scanning a row only appends to the move log |
| `Settle.ScanRowLastMove` | src/main.rs:45-53 | the visit of one column appends at most one move, from a cell that was eligible when the row's scan began |
| `Settle.ScanRowMoves` | src/main.rs:44-55 | every move made while scanning row `y` starts on row `y`, goes one or two rows down, and starts from a cell that was eligible when the row's scan began |
| `Settle.ScanRowConserves` | src/main.rs:44-55 | scanning a row keeps grains plus lost grains the same, per column and in total |
| `Settle.ScanRowKeepsBottom` | src/main.rs:44-55 | scanning a row never clears a bottom-row cell |
| `Settle.ScanRowIdle` | src/main.rs:44-45 | the rest of a row scan changes nothing when none of the remaining cells is eligible |
| `Settle.ScanRowExplained` | src/main.rs:44-55 | every cell a row scan changed is the source or the target of a move that scan logged |
| `Settle.ScanRows` | src/main.rs:43-56 | scanning rows bottom-up keeps the grid's shape |
| `Settle.ScanRowsIdle` | src/main.rs:43-45 | the remaining rows of a scan change nothing when none of their cells is eligible |
| `Settle.ScanRowsConserves` | src/main.rs:43-56 | scanning rows keeps grains plus lost grains the same, per column and in total |
| `Settle.ScanRowsKeepsBottom` | src/main.rs:43-56 | scanning rows never clears a bottom-row cell |
| `Settle.ScanRowsLog` | src/main.rs:43-56 | the move log of a scan is downward, within the grid's width, and ordered bottom-up |
| `Settle.LogExtend` | src/main.rs:43-56 | appending the moves of one row to the log of the rows below it keeps the log downward and bottom-up |
| `Settle.ScanRowsExplained` | src/main.rs:43-56 | every cell a scan of rows changed is the source or the target of a logged move |
| `Settle.ScanRowsLost` | src/main.rs:43-56 | every grain sent off the grid skipped from row `rows - 2`, from a cell eligible in the starting grid |
| `Settle.StepSweep` | src/main.rs:42-57 | one `step` keeps the grid's shape |
| `Sandfall.Grid.Step` | src/main.rs:42-57 | the nested loops produce exactly the cells of `StepSweep` of the old cells with the same draws |
| `Settle.StepConserves` | src/main.rs:43-53 | after a step, grains plus grains lost off the bottom edge equal the grains before, both per column and for the whole grid, so no material crosses columns |
| `Settle.StepNeverAdds` | src/main.rs:43-53 | `step` never increases the grain count of the grid or of any column |
| `Settle.StepMoves` | src/main.rs:43-53 | every move stays in its column and goes one or two rows down; moves run bottom-up, so no move starts where an earlier move of the same step placed a grain (a grain moves at most once per step); a grain is lost only on a skip from row `rows - 2`, from a cell eligible before the step |
| `Settle.StepExplained` | src/main.rs:43-53 | every cell `step` changed is the source or the target of one of its logged moves, so with `VisitMoves` a step only moves grains and destroys the ones it sends off the bottom edge |
| `Settle.StepConservesAwayFromEdge` | src/main.rs:43-53 | when no grain of row `rows - 2` is eligible, `step` conserves the grain count exactly |
| `Settle.StepKeepsBottom` | src/main.rs:43-53 | `step` never clears a cell of the bottom row |
| `Settle.StepOnSettled` | src/main.rs:43-45 | on a settled grid (every grain is on the bottom row or on a grain) `step` takes no draw and changes nothing |
| `Settle.LoneGrainStep` | src/main.rs:43-53 | a lone grain at (x, y) takes the first draw and moves exactly once: to (x, y + 1) on a straight draw, to (x, y + 2) on a skip, and off the grid when the skip leaves it |
| `Settle.SkipOffBottomDestroysGrain` | src/main.rs:50-53 | a lone grain on row `rows - 2` with a skip draw leaves a grid with no grain |
| `Settle.TwoGrainColumn` | src/main.rs:43-53 | 4 x 4, grains at (1, 0) and (1, 2), two skip draws: the lower grain is destroyed, the upper one lands at (1, 2), and one grain remains |
| `Sandfall.Grid.Draw` | src/main.rs:58-71 | after `draw`, pixel (x, y) is gold exactly when `get(x, y)` and black otherwise; pixels outside the grid and the grid itself are unchanged |

## Left out

- `main` (src/main.rs:74-118) is left out. It covers window and texture setup, mouse polling, frame timing and drawing the texture, which are all calls into macroquad.
- RNG seeding and `rand::gen_range` (src/main.rs:23, 46, 76) are not modelled. The draws themselves are parameters of `RandomFill` and `Step`.
- The floating-point probabilities of `random_fill` are left out: the starting `p`, the ratio computed with `powf` and the per-row decay (src/main.rs:19-20, 28). Only each cell's resulting decision is an input, `below(x, y)`.
- macroquad's `Image`, `Color` and `set_pixel` internals are abstracted. The image is a 2-D array of a two-value colour type, and the RGBA values of GOLD and BLACK are not modelled.
- `Sandfall.Grid.Draw`: requires the image to be at least `cols` x `rows`. The source relies on macroquad's `set_pixel` for that, and what `set_pixel` does outside the image is not modelled.
- `usize` coordinates become `nat`. The only arithmetic that can leave `usize` is `rows - 1` at `rows == 0`, which the methods exclude with `rows >= 1`. `y + 1` and `y + 2` stay at most `rows`.
- `draw` takes `&mut self` but never changes the grid. The model's `Draw` modifies only the image.
- `draw` casts coordinates to `u32` for `set_pixel` (src/main.rs:68). The model does not truncate, because a grid wider or taller than `u32::MAX` cells is out of scope.
