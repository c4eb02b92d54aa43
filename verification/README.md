# Minesweeper board engine in Dafny

This project models the board engine of a single-player Minesweeper game: the `Minesweeper`
class of `main.py`. The class owns three `rows x columns` grids: the cell values (`-1` for a
mine, otherwise the number of adjacent mines), the revealed marks and the flags. It also owns
these counters and flags:
- `mines_left` and `flags_left`
- the revealed-cell count
- `game_over` and `game_won`

The engine does the following:
- places the mines on the first click, outside the 3x3 block around that cell;
- fills in the adjacency counts;
- toggles flags within a flag budget;
- reveals cells, with a recursive flood fill over zero cells;
- uncovers every mine for the end-of-game display.

The files:

- `grid.dfy` (module `Grid`) covers the grid geometry:
  - the eight neighbour offsets `dx`/`dy` the engine walks, and Chebyshev adjacency;
  - the 3x3 block around the first click, and the candidate cells for placing mines;
  - the counting lemmas behind the adjacency counts and the placement bound.
- `cascade.dfy` (module `Cascade`) defines what a reveal uncovers, independently of the
  recursion that computes it:
  - A walk starts at the clicked cell. It steps only from zero cells to adjacent cells, never
    enters a cell that was revealed or flagged when the reveal began, and never leaves the
    grid.
  - The uncovered region is exactly the set of cells such a walk reaches (`IsReachSet`). That
    is the connected zero region plus its numbered border.
  - `Closed` says that no zero cell of a region has an unvisited neighbour.
- `minesweeper.dfy` (module `Engine`) holds the class `Minesweeper`:
  - `board`, `revealed` and `flagged` are `array2` fields, updated in place.
  - The counters are mutable fields.
  - Ghost sets `mineCells`, `revealedCells` and `flaggedCells` mirror the three grids.
  - `Valid()` ties the ghost sets to the grids. It also states that every non-mine cell holds
    its adjacency count, and that flags are conserved (`flagsLeft + |flagged| == mines`,
    `flagsLeft >= 0`).

The recursion `reveal_cell` -> `reveal_neighbours` -> `reveal_cell` is kept as recursion.
- It is split into four methods (`RevealCell`, `RevealFresh`, `SpreadFrom`, `RevealNeighbours`)
  plus the loop body `RevealNeighbour`.
- All of them share the termination measure `rows*columns - |revealedCells|`. The measure
  drops each time a fresh cell is uncovered.

Behaviour of the code worth knowing, all modelled as written:
- A revealed cell can be flagged.
- The detonated mine is counted in the revealed-cell count.
- Flagging a cell that is not a mine leaves `mines_left` unchanged, so it never goes negative.
- The constructor validates nothing, and no method checks bounds: an index past the grid raises
  `IndexError` and a negative one wraps around. The model requires on-grid cells instead.
- The cascade is recursive, not a work list. The model's recursion has no depth limit; see
  "## Left out".

## Model

| member | source | states |
|---|---|---|
| `Engine.Minesweeper.constructor` | main.py:37-45 | all three grids are `rows x columns` and all zero/false; `mines_left == flags_left == mines`, count 0, neither game flag set; the state is `Valid` and unpopulated |
| `Engine.Minesweeper.CandidateCells` | main.py:48-58 | the list of all cells minus `exclude + (dx[i], dy[j])` for all 64 offset pairs is exactly the grid minus the 3x3 block around the anchor |
| `Engine.Sample` | main.py:60 | the random sample yields `k` distinct members of the population (any such choice) |
| `Engine.DistinctElementsCard` | main.py:60-62 | a repetition-free sample marks exactly as many distinct cells as it has elements |
| `Engine.Minesweeper.PlaceMines` | main.py:47-62 | succeeds iff at least `mines` candidates remain; on success exactly `mines` cells hold `-1`, all outside the block, every other cell still 0; on failure the board is unchanged |
| `Engine.Minesweeper.PlaceNumbers` | main.py:64-80 | afterwards every non-mine cell holds exactly the number of its in-grid neighbours holding `-1`, and mine cells stay `-1` |
| `Grid.OffsetMineCountIsAdjacentMines` | main.py:72-80 | counting offset by offset as the k-loop does yields the number of distinct in-grid adjacent mines, so a count lies in 0..8 |
| `Grid.OffsetsAdjacentAndDistinct` | main.py:65-66 | the eight `(dx[k], dy[k])` offsets are neighbours and pairwise distinct |
| `Grid.AdjacentIsOffset` | main.py:120-121 | every adjacent cell is one of the eight offsets, so the loops over `k` visit every neighbour |
| `Engine.Minesweeper.PopulateBoard` | main.py:82-84 | on success exactly `mines` cells are mines, none within the 3x3 block of the anchor (anchor included), and every other cell holds its adjacency count; fails iff fewer than `mines` candidates remain, leaving the board unchanged |
| `Grid.CandidatesLowerBound` | main.py:48-60 | the block removes at most nine cells, so at least `rows*columns - 9` candidates remain |
| `Grid.CandidatesInterior` | main.py:48-60 | for an anchor away from the edges exactly `rows*columns - 9` candidates remain, so more mines than that make placement fail |
| `Grid.AllCellsCard` | main.py:48 | the grid has `rows*columns` cells |
| `Engine.Minesweeper.FlagCell` | main.py:86-97 | with no flag left, flagging an unflagged cell changes nothing; otherwise exactly that cell's flag flips, `flags_left` moves by one the other way, and `mines_left` moves with it only for a mine cell; no revealed check; flag conservation and the exactness of `mines_left` are preserved |
| `Engine.FlagToggleBookkeeping` | main.py:89-97 | toggling one flag changes the flag count by one and the number of flagged mines by one exactly when the cell is a mine |
| `Engine.Minesweeper.Uncover` | main.py:105-109 | marks the cell revealed, bumps the count by one (mines included), reports a mine and sets `game_over` on a mine |
| `Engine.Minesweeper.CheckWin` | main.py:114-115 | `game_won` is set exactly when the count equals `rows*columns - mines`, and never cleared |
| `Engine.Minesweeper.RevealCell` | main.py:99-117 | flagged: `Blocked` and no change; already revealed: `AlreadyRevealed` and no change; otherwise the cells uncovered are exactly those the cascade reaches from the cell; they were all unrevealed; the count grows by their number; a mine yields `Detonated`, uncovers only that cell and sets `game_over`; a safe reveal uncovers no mine; `game_won` only turns on when the count reaches the target during a safe reveal, and does so whenever it lands on the target exactly |
| `Engine.Minesweeper.RevealFresh` | main.py:105-117 | the same for a cell neither flagged nor revealed: the cell itself is uncovered, with the outcome `Detonated` iff it is a mine |
| `Engine.Minesweeper.SpreadFrom` | main.py:111-117 | after a safe cell is uncovered, the cell plus what its neighbours uncover is exactly its cascade, holds no mine, and the win test runs on the final count |
| `Engine.Minesweeper.RevealNeighbours` | main.py:119-130 | each on-grid neighbour of a zero cell ends revealed or flagged; what the nested reveals uncover is reachable from the cell, contains no mine and is counted once |
| `Engine.Minesweeper.RevealNeighbour` | main.py:123-130 | one turn: the k-th neighbour, if on the grid, ends revealed or flagged, and what its reveal uncovers is reached from the zero cell |
| `Grid.ZeroCountNoAdjacentMine` | main.py:111-112 | a cell whose count is 0 has no mine among its neighbours, so a cascade never detonates |
| `Cascade.ReachableSelf` | main.py:105 | an unblocked cell is reached by the reveal of itself |
| `Cascade.ReachablePrepend` | main.py:111-112 | a walk from a neighbour of an unblocked zero cell extends to a walk from that cell |
| `Cascade.ClosedRegionContainsReachable` | main.py:119-130 | a region holding the start cell with no zero cell missing a neighbour contains every reachable cell: the flood fill misses nothing |
| `Cascade.ClosedUnion` | main.py:122-130 | closure survives growing the visited set and joining regions |
| `Cascade.BlockedReachesNothing` | main.py:100-104 | a flagged or revealed start reaches nothing |
| `Cascade.MineStopsCascade` | main.py:107-109 | a reveal that hits a mine uncovers that cell alone |
| `Cascade.CascadeFrom` | main.py:111-117 | a cell plus a closed region reached through its neighbours is exactly its cascade |
| `Cascade.NeighbourReach` | main.py:125-130 | what the reveal of a neighbour uncovers is reached from the zero cell that triggered it |
| `Cascade.RegionGrow` | main.py:122-130 | two reached and closed regions unite into one |
| `Engine.WinMeansEverySafeCellRevealed` | main.py:114-115 | while only safe cells are counted, the count is at most `rows*columns - mines` and equals it iff every safe cell is uncovered |
| `Engine.Minesweeper.RevealAllMines` | main.py:132-136 | a cell ends revealed iff it was revealed or holds `-1`; counters, flags and game flags are untouched |

## Left out

- The `MinesweeperApp` GUI, image loading, the clock and the pause/resume `GameState` are not part of this model. They are widgets, file I/O, floating point and timers.
- The uniform distribution of `random.sample` is not modelled. `Sample` picks any `k` distinct candidates.
- The order of the candidate list is not modelled: the candidates are a set, and order only affects which random sample comes out.
- Engine.Minesweeper.constructor: requires `rows > 0`, `columns > 0` and `mines >= 0`. The code does not validate its arguments. The Python default arguments (`rows = columns = mines = 10`) are not modelled: every caller passes all three.
- Python's behaviour on out-of-range or negative indices is not modelled. `FlagCell` and `RevealCell` require an on-grid cell.
- Engine.Minesweeper.PopulateBoard: requires an unpopulated board (all zeros, nothing revealed), which holds because the GUI populates exactly once, before the first reveal. A failed placement returns `false` where `random.sample` raises `ValueError`; in both cases nothing has been written.
- Engine.Minesweeper.FlagCell: `mines_left` equals `mines` minus the number of flagged mines only when no flag was placed before population. Placement ignores existing flags, so a flag placed before the first click on a cell that later becomes a mine is never counted. The contract preserves that equality when it holds, rather than asserting it always.
- Engine.Minesweeper.RevealCell: the exact "win iff count equals target" is stated for counts up to the target. Beyond the target, the contract says only that `game_won` is never cleared and only turns on while crossing the target. A count can exceed the target only once a detonated mine is counted, after which the GUI ends the game.
- Engine.WinMeansEverySafeCellRevealed: stated on values, not as a class invariant. Because `reveal_all_mines` reveals without counting, applying it to the engine needs a separate ghost tally of the counted cells, and the class keeps none, to keep the reveal proofs within their verification cost. A caller can still derive the engine-level fact. On a fresh board, `RevealCell` gives `revealedCount == |revealedCells|` and the uncovered cells hold no mine after a safe reveal, and the lemma applies to those sets.
- Engine.Minesweeper.RevealCell: the model's recursion is unbounded. In Python, each zero cell on the current depth-first path holds two frames (`reveal_cell` and `reveal_neighbours`), against the default limit of 1000. On a large open board, such as the 30x30 setting with few mines, the cascade can raise `RecursionError` partway through. That leaves a partial reveal: the count is bumped, and the win test is skipped in every unfinished frame. The contract promises the whole reachable region for every board size, so this failure is not modelled.
- The `None`/`True`/`False` return values of `reveal_cell` are modelled as `RevealOutcome`. What the GUI does with them is not part of this model.
