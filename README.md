# Conway's Game of Life board, verified

A Dafny model of the `Board` class of `cw-gol.py`. This is a Game of Life
engine on an n×n grid. The grid is kept as a flat array indexed `y*n + x`.
The board owns two equal-length buffers: `board`, the current generation,
and `temp_board`, a scratch buffer that the next generation is computed into.

The model has five modules:

- `Grid` (`grid.dfy`): the `Cell` coordinate pair, the flat index and its
  decoding, `get_cell`'s bounds-checked read (`Lookup`), and the unchecked
  write shared by `set_cell` and `set_temp_cell` (`Store`). `Store` follows
  Python's list index rules: an index in `[-len, 0)` counts from the end,
  and an index outside `[-len, len)` raises `IndexError`.
- `Rules` (`rules.dfy`): `number_of_neighbours` and `apply_rules_to_cell`
  as functions of the current board's contents, plus `NextGeneration`, the
  board that one step produces.
- `Patterns` (`patterns.dfy`): what a step does to the blinker, the block and
  a lone cell.
- `Render` (`render.dfy`): the text that `draw_board` builds.
- `Life` (`board.dfy`): the `Board` class. Both buffers are arrays. Each
  method is proved against the functions above. The random draws are passed
  in as a parameter.

The model follows the code as written, including its quirks:

- **Row 0 is never counted.** The neighbour filter admits a candidate only
  when `0 <= x < n` and `0 < y < n`, so live cells on row 0 never add to any
  count. Dead edges would only require `0 <= y`. `RowZeroIgnored`,
  `CornerCount` and `BlinkerOnRowZeroDecays` state the consequences. For
  example, a blinker whose top cell is on row 0 dies out instead of
  oscillating.
- **`set_cell` does not check bounds.** It writes to the flat index
  `y*n + x` with no test of the coordinates, so Python's array indexing
  decides what happens. The write raises `IndexError` only when the flat
  index falls outside `[-n*n, n*n)`. An index in `[-n*n, 0)` counts back
  from the end of the array. An in-range flat index reached from an
  out-of-range coordinate lands on whatever cell has that index: a column
  past the edge lands in a later row, and a column before it in an earlier
  row. On a board of size 2 or more, `set_blinker` centred on row 0
  therefore writes into the bottom row and raises nothing
  (`BlinkerOnTopRow`). On a 1×1 board row 0 is also the last row, and the
  third write raises. Centred on the last row, it raises
  on its third write, after the first two writes have landed
  (`BlinkerOnBottomRow`).
- **`board_step` copies rather than swaps.** It copies `temp_board` into
  `board` element by element and does not exchange the two buffers. After a
  step the two buffers are therefore equal (`Life.Board.BoardStep`).
- **`random_cells` removes repeated draws.** Repeated draws collapse in the
  set, so at most `cell_number` cells become live (`DrawnCount`). On a
  board of size 0, `random.choice(range(0))` has nothing to choose from, so
  a positive count raises `IndexError` at the first draw (`EmptyChoice`).

## Model

| member | source | states |
|---|---|---|
| `Grid.DecodeRoundTrip` | cw-gol.py:112-114 | Every index `i < n*n` decodes (row `i // n`, column `i - row*n`) to an in-range cell that encodes back to `i`. |
| `Grid.EncodeRoundTrip` | cw-gol.py:47 | Every in-range cell has an index in `[0, n*n)` that decodes back to that cell. |
| `Grid.IndexInjective` | cw-gol.py:47 | Two in-range cells share a flat index if and only if they are the same cell. |
| `Grid.Lookup` | cw-gol.py:52-55 | `get_cell` raises `IndexError` exactly when `x` or `y` is outside `[0, n)`; otherwise it returns the state stored at `y*n + x`. |
| `Grid.PyIndex` | cw-gol.py:47 | A Python array index is accepted exactly when it lies in `[-len, len)`. The slot it reaches is in range and agrees with the index modulo `len`. Any other index raises. |
| `Grid.Store` | cw-gol.py:46-50 | The unchecked write succeeds exactly when the flat index lies in `[-len, len)`. It then changes only the slot Python's indexing picks for that index (`PyIndex`) and keeps the length. Otherwise it raises `IndexError` with that index. |
| `Grid.StoreInBounds` | cw-gol.py:46-47 | For an in-range cell, the write lands at `y*n + x`. The cell then reads back the value written, and every other cell reads as before. |
| `Grid.StoreWrapsFromAbove` | cw-gol.py:133 | A write to row -1 raises nothing. It lands on the same column of the last row. |
| `Grid.StoreFailsBelow` | cw-gol.py:134 | A write to row `n` always raises, at index `n*n + x`. |
| `Grid.Dead` | cw-gol.py:28-29 | `make_board`'s contents: `n*n` cells, all dead. |
| `Grid.PaintAt` | cw-gol.py:106-108 | After painting a set of cells live, an in-range cell is live exactly when it was live before or belongs to the set. |
| `Grid.PaintAdd` | cw-gol.py:108 | Painting one more in-range cell is the same as one more `set_cell(cell, True)`. |
| `Rules.Neighbourhood` | cw-gol.py:71-78 | There are eight candidate neighbours, and the centre is not one of them. |
| `Rules.Contribution` | cw-gol.py:82-84 | A candidate adds 1 exactly when the filter `0 <= x < n and 0 < y < n` admits it and it is live; otherwise it adds 0. An admitted candidate never makes `get_cell` raise. |
| `Rules.LiveSum` | cw-gol.py:80-86 | The filtered sum over a list of candidates is at most the list's length. |
| `Rules.NumberOfNeighbours` | cw-gol.py:68-86 | `number_of_neighbours` never raises and returns a value in `[0, 8]`. |
| `Rules.NeighboursExpanded` | cw-gol.py:80-86 | The count is the sum of the eight candidates' contributions, each 0 or 1 as `Contribution` states. |
| `Rules.LiveSumLocal` | cw-gol.py:80-86 | The filtered sum depends only on the states of the candidates the filter admits. |
| `Rules.NeighboursLocal` | cw-gol.py:80-86 | Two boards that agree on a cell's admitted neighbours give that cell the same count. |
| `Rules.RowZeroIgnored` | cw-gol.py:84 | Two boards that differ only in row 0 give every cell the same neighbour count. |
| `Rules.CornerCount` | cw-gol.py:84 | On a board of any size, only (0, 1) and (1, 1) can be counted at the corner (0, 0), so the count there is at most 2. |
| `Rules.Survives` | cw-gol.py:93-104 | The B3/S23 rule: the result is true exactly when the cell is live with 2 or 3 neighbours, or dead with exactly 3. |
| `Rules.ApplyRules` | cw-gol.py:88-104 | `apply_rules_to_cell` raises exactly when the centre is out of range. Otherwise it applies the B3/S23 rule to the cell's state and its neighbour count. |
| `Rules.NextGeneration` | cw-gol.py:110-117 | The next generation has as many cells as the current one. |
| `Rules.NextGenerationAt` | cw-gol.py:112-117 | Each in-range cell's new state is the rule applied to its own state and count in the current generation, and to nothing else. |
| `Rules.StepRules` | cw-gol.py:9-13 | The four rules hold after one step: underpopulation and overpopulation kill a live cell, 2 or 3 neighbours keep it alive, and a dead cell is born exactly at 3. |
| `Rules.Evolve` | cw-gol.py:123-126 | `k` generations on, the board has the same number of cells. |
| `Rules.EvolveStep` | cw-gol.py:124-126 | `k+1` generations is one more step after `k`. |
| `Rules.FixedPointForever` | cw-gol.py:110-121 | A board that one step leaves unchanged stays unchanged for any number of steps. |
| `Rules.PeriodTwoForever` | cw-gol.py:110-121 | A board that returns after two steps alternates between the same two boards forever. |
| `Patterns.PatternContribution` | cw-gol.py:82-84 | On a board whose live cells are exactly a set `s`, a candidate contributes exactly when it is admitted and belongs to `s`. |
| `Patterns.PatternNeighbours` | cw-gol.py:80-86 | On such a board, the neighbour count is a function of `s` alone. |
| `Patterns.PatternStep` | cw-gol.py:110-117 | If the rule computed from `s` agrees with membership in `t` at every in-range cell, one step takes the board of `s` to the board of `t`. |
| `Patterns.VerticalToHorizontal` | cw-gol.py:130-134 | A vertical blinker centred in columns 1 to `n-2` and rows 2 to `n-2` turns horizontal after one step. With the centre on row 1 the top cell would sit on row 0, where it is never counted (`BlinkerOnRowZeroDecays`). |
| `Patterns.HorizontalToVertical` | cw-gol.py:110-121 | A horizontal blinker centred in columns 1 to `n-2` and rows 1 to `n-2` turns vertical after one step. |
| `Patterns.BlinkerOscillates` | cw-gol.py:130-134 | That blinker has period two: it is back after every even number of steps and horizontal after every odd number. |
| `Patterns.BlinkerOnRowZeroDecays` | cw-gol.py:84 | A vertical blinker whose top cell is on row 0 does not oscillate: its centre sees one neighbour and dies. |
| `Patterns.BlockIsStill` | cw-gol.py:110-121 | A 2×2 block that does not touch row 0 is unchanged after any number of steps. |
| `Patterns.LoneCellDies` | cw-gol.py:94-95 | A single live cell dies in one step, leaving an empty board. |
| `Render.Glyph` | cw-gol.py:39-42 | Each cell is drawn as two characters: `o` or a blank, followed by a space. |
| `Render.RowGlyphs` | cw-gol.py:39-42 | The first `m` cells of a row take `2m` characters. |
| `Render.Line` | cw-gol.py:36-42 | A row is a line break followed by its `2n` characters. |
| `Render.Lines` | cw-gol.py:34-42 | `k` rows take `k*(2n+1)` characters. |
| `Render.ModOfIndex` | cw-gol.py:36 | The index of column `j` in any row is `j` modulo `n`, so a line break comes exactly at column 0. |
| `Render.PrefixInRow` | cw-gol.py:35-42 | Part way through row `y`, the text built so far is the rows before `y`, then a line break, then the first cells of row `y`. |
| `Render.PrefixAtRows` | cw-gol.py:35-42 | After `y` whole rows, the text built is exactly those rows. |
| `Render.LineLayout` | cw-gol.py:36-42 | Row `y`'s line starts with a line break, and cell `(x, y)`'s symbol sits at column `2x+1` of it, followed by a space. |
| `Render.LinesAt` | cw-gol.py:35-37 | In the text of whole rows, character `j` of row `y`'s line sits at `y*(2n+1) + j`. |
| `Render.TextLayout` | cw-gol.py:34-42 | The text has `n` lines of `2n+1` characters. Line `y` starts with a line break, and cell `(x, y)`'s symbol sits at column `2x+1` of that line, followed by a space. |
| `Life.DrawnCount` | cw-gol.py:61-65 | The set of drawn cells is never larger than the number of draws. It is exactly as large if and only if no draw repeats. |
| `Life.StoreEach` | cw-gol.py:130-134 | A run of writes that stops at the first raise keeps the board's length. |
| `Life.StoreEachPaints` | cw-gol.py:106-108 | A run of live writes to in-range cells, in any order and with repeats, makes exactly the written cells live. |
| `Life.BlinkerInside` | cw-gol.py:130-134 | With `1 <= cy <= n-2`, `set_blinker` makes exactly `(cx, cy-1)`, `(cx, cy)` and `(cx, cy+1)` live and raises nothing. |
| `Life.BlinkerOnTopRow` | cw-gol.py:130-134 | On a board of size 2 or more, centred on row 0, `set_blinker` raises nothing and makes the centre, the cell below it and the same column of the last row live. |
| `Life.BlinkerOnBottomRow` | cw-gol.py:130-134 | Centred on the last row, `set_blinker` makes the centre and the cell above it live, then raises on the write below. |
| `Life.Board.MakeBoard` | cw-gol.py:27-29 | `make_board` returns a fresh array of `n*n` dead cells. |
| `Life.Board.constructor` | cw-gol.py:22-25 | The new board has two distinct fresh all-dead buffers of `n*n` cells. |
| `Life.Board.Write` | cw-gol.py:46-50 | The array write does what `Store` says: it lands where the Python index rules put it, or it raises and changes nothing. |
| `Life.Board.SetCell` | cw-gol.py:46-47 | `set_cell` changes `board` as `Store` says and leaves `temp_board` untouched. |
| `Life.Board.SetTempCell` | cw-gol.py:49-50 | `set_temp_cell` changes `temp_board` as `Store` says and leaves `board` untouched. |
| `Life.Board.GetCell` | cw-gol.py:52-55 | `get_cell` raises exactly when a coordinate is outside `[0, n)`, returns `Lookup`'s value, and changes nothing. |
| `Life.Board.ZeroTempBoard` | cw-gol.py:57-59 | Every entry of `temp_board` becomes dead, its length is kept, and `board` is unchanged. |
| `Life.Board.RandomCells` | cw-gol.py:61-65 | It raises exactly when the board has size 0 and `cell_number > 0`. Otherwise, given `cell_number` in-range draws, it returns the set of the draws: at most `cell_number` cells, all in range. |
| `Life.Board.SetRandomBoard` | cw-gol.py:106-108 | The count defaults to 10. It raises exactly when the board has size 0 and the count is positive, and then nothing changes. Otherwise the drawn cells become live, whatever order the set is walked in. Every other cell and `temp_board` keep their state. |
| `Life.Board.SetBlinker` | cw-gol.py:130-134 | `set_blinker` performs the three writes in the source's order, stopping at the first that raises, and leaves `temp_board` untouched. |
| `Life.Board.BoardStep` | cw-gol.py:110-121 | After a step, `board` is the next generation of the board before the step. That generation is computed from the old board only. `temp_board` equals the new `board`, and both keep length `n*n`. |
| `Life.Board.BoardString` | cw-gol.py:34-42 | The text built by `draw_board`'s loop is `BoardText` of the current board. |
| `Life.Board.Run` | cw-gol.py:123-128 | `periods` defaults to 10. `run(periods)` leaves the board `periods` generations on (none when `periods` is negative). After each step it produces the text of that generation. After at least one step `temp_board` equals `board`; with no step it is untouched. |

## Left out

- Terminal output: the ANSI escapes, `print` and the title line in `draw_board`, the `input()` pause in `main`, and `sleep` in `run`. `Life.Board.BoardString` returns the text instead of printing it, and `Life.Board.Run` returns one text per generation.
- Command-line parsing (`argparse`) and the commented-out `cProfile` call.
- `main`'s `int(board_size*board_size*saturation)`, which is floating-point arithmetic. `Life.Board.SetRandomBoard` takes the resulting count as a parameter. The parameter defaults to 10, as the source's does, but it comes after `draws` because it is the draws that stand for the random choices.
- `random.choice`. The drawn coordinates are a parameter `draws`. It holds one cell per requested cell when the board has size `n > 0`, and none when the count is not positive or the board has size 0. Each drawn cell lies in `[0, n)` on both axes, which is what `random.choice(range(n))` returns for `n > 0`. For `n == 0` the model raises instead of drawing.
- Python iterates a set in some order; `Life.Board.SetRandomBoard` picks an arbitrary order and proves that the result does not depend on it.
- The buffers are `array('I')` of unsigned integers in the source. Only `True`/`False`/`0` are ever stored in them, so the model stores `bool`.
- A negative `board_size` is left out: the size is a `nat`. In the source a negative size gives buffers of `size*size` cells that no in-range cell can address.
- `tests/test_unit.py` exercises `load_file_figure` of a module `cwgol`, and `cwgol` is not part of this model.
