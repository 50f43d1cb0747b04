# Minesweeper board engine

A Dafny model of the board engine of the `Board` component in
`src/App.js` (react-minesweeper). The board is a height x width grid of
cells, stored as a two-dimensional array `cells[y, x]`. Each cell carries
`isBomb`, `isCleared`, `isFlagged`, `number` and `isWrong`. The `number`
is the adjacent-bomb count of a safe cell and null for a bomb. Beside the
grid the engine keeps a game-over flag and the flag budget `numOfBombs`,
which is shown as "Bombs:".

The model keeps the engine's imperative form:

- `Minesweeper.Board` is a class holding the array, the game-over flag and
  the budget. Its methods update the array in place, as the script does.
- A ghost map `grid` mirrors the array. Every contract is stated over it.
- `Minesweeper.Build` fills a fresh array from a bomb layout: row by row,
  scanning the 3x3 window around each safe cell, as `build` does.
- The click handlers, `clearCell`/`floodClear`, the win loop and the
  game-over wrong-flag pass are methods of `Board`, with the same branches
  in the same order.

The files are:

- `geometry.dfy` (module `Geometry`): positions, adjacency, the
  neighbour order of `forEveryCellNeighbour`, and counting over it.
- `cells.dfy` (module `Cells`): the cell record, the board invariant
  `WellFormed`, and the pure transitions of the right click and of
  wrong-flag marking.
- `reveal.dfy` (module `Reveal`): the relation `Revealed(before, after,
  roots, visited)`. It states what a reveal from a set of `clearCell`
  roots does to the board.
- `board.dfy` (module `Minesweeper`): `build` and the `Board` class.

The class invariant `Board.Valid()` says:

- the grid is well formed for the bombs it was built with;
- every safe cell holds its adjacent-bomb count;
- no cell is both cleared and flagged, and no bomb is cleared;
- the budget is never negative;
- budget + number of flags on the board == number of bombs.

The constructor establishes `Valid()`. Every handler requires it and
ensures it, so it holds after any sequence of clicks.

`Revealed` says:

- positions, bombs, flags and numbers are unchanged;
- cleared cells stay cleared;
- a bomb root is marked wrong, and nothing else is marked;
- exactly the `visited` cells become cleared;
- each visited cell is unflagged and safe, and is either a root or an
  uncleared neighbour of an earlier visited zero cell;
- every visited zero cell ends with all its neighbours flagged or cleared
  (the flood closure).

`Reveal.RevealedDeterministic` proves that this relation leaves only one
possible board.

## Model

| member | source | states |
|---|---|---|
| Geometry.Neighbours | src/App.js:98-110 | the neighbours handed to the callback are exactly the in-grid cells adjacent to the cell, each exactly once, at most eight |
| Geometry.NeighbourCount | src/App.js:98-110 | counting the members of a set along the neighbour list gives the number of adjacent in-grid members |
| Geometry.CountInIsCardinality | src/App.js:98-110 | counting along a list without repeats is the size of the set of members it lists |
| Geometry.ScanCountStep | src/App.js:36-44 | step 3(dx+1)+(dy+1) of the bomb-counting scan in `build` looks at the cell at offset (dy, dx) |
| Geometry.ScanCountIsShift | src/App.js:36-44 | the count over the first n scan steps equals the count over the in-grid targets of the first n window offsets |
| Geometry.SquareCount | src/App.js:35-47 | the 3x3 scan around an in-grid cell counts its adjacent bombs, plus one only when the cell itself is a bomb |
| Geometry.ZeroCountNoNeighbour | src/App.js:125-129 | a cell whose count is zero has no bomb among its neighbours |
| Minesweeper.CountAdjacentBombs | src/App.js:35-47 | the nested offset loop returns the adjacent-bomb count of (y, x), plus one when (y, x) is a bomb |
| Minesweeper.CountedBeforeStep | src/App.js:25-31 | scanning one more position adds it to the bombs counted so far exactly when it is a bomb |
| Minesweeper.CountedBeforeRow | src/App.js:25-26 | the bombs counted at the end of row y are those counted at the start of row y+1 |
| Minesweeper.NumberRow | src/App.js:25-48 | one pass of the outer loop gives every safe cell of row y its adjacent-bomb count, leaves bombs null and other rows untouched, and brings the bomb count up to the end of the row |
| Minesweeper.Build | src/App.js:9-52 | the built grid has the given dimensions, its bombs are exactly the layout's, every safe cell holds its adjacent-bomb count and every bomb a null number, nothing is cleared, flagged or wrong, and the returned total is the number of bombs |
| Minesweeper.BuiltGridWellFormed | src/App.js:12-48 | a freshly built grid satisfies the board invariant and carries no flag |
| Minesweeper.Board.constructor | src/App.js:9-52 | a new board satisfies the class invariant, its bombs are the layout's, no cell is cleared, flagged or wrong, the game is not over, and the budget equals the number of bombs |
| Minesweeper.Board.FloodClear | src/App.js:119-130 | `floodClear` on a safe cell keeps the invariant and performs a complete reveal from that cell: a flagged cell is left alone, otherwise the cell is cleared and, when its number is zero, the flood closes over its neighbours; it terminates because each nested call is on an uncleared cell |
| Minesweeper.Board.FloodNeighbours | src/App.js:125-129 | after the neighbour pass every neighbour of the zero cell is flagged or cleared, and the partial reveal and the closure of the cells visited so far are kept |
| Minesweeper.Board.FloodOne | src/App.js:126-128 | the callback flood-clears an uncleared neighbour and skips a cleared one, extending the partial reveal without adding uncleared cells |
| Minesweeper.Board.ClearCell | src/App.js:112-134 | `clearCell` keeps the invariant and is a reveal from the cell; on a bomb it sets `isWrong` on that cell only, ends the game, clears nothing and leaves the budget unchanged |
| Minesweeper.Board.CountFlaggedNeighbours | src/App.js:150-154 | the counting pass returns the number of flagged cells adjacent to the cell |
| Minesweeper.Board.LeftClick | src/App.js:142-163 | the five cases of the left-click handler. Game over, flagged cell, or cleared cell without a positive number: nothing changes. Uncleared cell: a reveal from it, with game over exactly when it is a bomb. Cleared numbered cell whose flag count differs from its number: nothing changes. Otherwise: a reveal from all unflagged neighbours, with game over exactly when one of them is a bomb. The budget never changes and the invariant is kept |
| Minesweeper.Board.Chord | src/App.js:155-159 | applying `clearCell` to every unflagged neighbour in order is one reveal from the set of unflagged neighbours, and the game ends exactly when that set holds a bomb |
| Minesweeper.Board.ChordOne | src/App.js:156-159 | one callback of the chord extends the reveal by the neighbour when it is unflagged and ends the game when that neighbour is a bomb |
| Minesweeper.Board.RightClick | src/App.js:164-182 | the right-click handler changes grid and budget exactly as `Cells.ToggleFlag` (no-op at game over, on a cleared cell, or at zero budget; otherwise flip the flag and move the budget) and keeps the invariant |
| Minesweeper.Board.CheckWin | src/App.js:194-199 | the win loop returns true exactly when every non-bomb cell is cleared |
| Minesweeper.Board.MarkWrongFlagsPass | src/App.js:212-219 | the render pass leaves the grid equal to `Cells.MarkWrongFlags` of the old grid and keeps the invariant |
| Minesweeper.Board.MarkWrongCells | src/App.js:214-218 | after the nested loop every cell of the array is its old value with `isWrong` set exactly when the game is over and it is a flag on a safe cell |
| Cells.FlagsAroundCount | src/App.js:150-154 | counting flagged cells along the neighbour list gives the number of flagged cells adjacent to the cell |
| Cells.WonIffSafeCellsCleared | src/App.js:194-199 | on a board of a game, the win test holds exactly when the set of cleared cells is the set of non-bomb cells |
| Cells.FlipFlagSet | src/App.js:174 | flipping one flag adds one to, or removes one from, the number of flagged cells |
| Cells.ToggleFlagKeepsBudget | src/App.js:167-179 | the right click keeps the board well formed, keeps the budget non-negative, and keeps budget + flags equal to the bomb total |
| Cells.ToggleTwiceRestores | src/App.js:167-179 | two right clicks on an uncleared cell restore board and budget, provided neither click meets a zero budget |
| Cells.FlagStuckAtZeroBudget | src/App.js:171-172 | with one bomb and budget one, flagging a cell and right-clicking it again leaves the flag set and the budget at zero |
| Cells.IntendedToggleTwiceRestores | src/App.js:167-179 | with the budget check applied only to placing a flag, two right clicks on an uncleared cell always restore board and budget |
| Cells.IntendedToggleKeepsBudget | src/App.js:167-179 | the corrected right click keeps the same invariant as the one in the script |
| Cells.ToggleFlagDiffersOnlyAtZero | src/App.js:167-179 | the script's right click and the corrected one give different results exactly when a flag would be removed while the budget is zero |
| Cells.MarkWrongFlags | src/App.js:215-218 | a cell ends marked wrong exactly when it was marked already or the game is over and it is a flag on a safe cell, so a flag on a real bomb stays unmarked; only `isWrong` changes, and before game over nothing changes |
| Cells.MarkWrongFlagsKeepsBoard | src/App.js:215-218 | the wrong-flag pass keeps the board well formed, changes no flag, and applying it twice is the same as once |
| Reveal.RevealedNothing | src/App.js:156-159 | the unchanged board is the reveal from no roots, the starting point of the chord loop |
| Reveal.RevealedCompose | src/App.js:156-159 | a reveal followed by another reveal is one reveal from the union of their roots, so successive `clearCell` calls compose |
| Reveal.FloodExtend | src/App.js:126-128 | a flood started from an uncleared safe neighbour of a visited zero cell extends the partial reveal and keeps closed cells closed |
| Reveal.RevealFlagged | src/App.js:120-121 | `floodClear` on a flagged cell is a complete reveal that clears nothing |
| Reveal.RevealCell | src/App.js:123-125 | clearing an unflagged safe cell is a partial reveal from it, and a complete one when its number is not zero |
| Reveal.GrownUncleared | src/App.js:123 | a reveal never re-covers a cell, so the set of uncleared cells can only shrink |
| Reveal.SettledPersists | src/App.js:126-128 | a cell whose neighbours are all flagged or cleared stays that way as the flood goes on |
| Reveal.FloodStart | src/App.js:123-125 | clearing a zero cell starts its neighbour pass with the cell visited and no longer uncleared |
| Reveal.FloodSkip | src/App.js:127 | a neighbour that is already cleared is left as it is, and the pass moves on |
| Reveal.HandledStay | src/App.js:126-128 | neighbours already handled stay flagged or cleared, and the neighbour just flooded becomes cleared |
| Reveal.FloodStep | src/App.js:126-128 | flooding an uncleared safe neighbour moves the neighbour pass forward by one and keeps its state |
| Reveal.FloodDone | src/App.js:125-129 | once all neighbours are handled, the zero cell is settled and the flood from it is a complete reveal |
| Reveal.ChordRootsStep | src/App.js:156-158 | after one more neighbour, the chord's roots gain that neighbour exactly when it is unflagged |
| Reveal.ChordRootsAll | src/App.js:156-159 | over the whole neighbour list, the chord's roots are the unflagged adjacent cells |
| Reveal.VisitedByBoth | src/App.js:119-131 | a cell cleared by one reveal from some roots is cleared by every reveal from the same roots |
| Reveal.RevealedDeterministic | src/App.js:119-131 | two reveals from the same board and roots end in the same board, so the outcome does not depend on the order of the flood |
| Reveal.RevealedKeepsBoard | src/App.js:119-131 | a reveal keeps the board well formed: it clears no flagged cell and no bomb, and it changes no flag |
| Reveal.SpawnedIsSafe | src/App.js:125-128 | the flood reaches only safe cells, because a zero cell has no bomb around it |

## Left out

- The random bomb draw (`Math.random() < bombChance`) is not modelled. The layout is a parameter of `Build` and of the `Board` constructor.
- React state is modelled as plain fields that are updated immediately. This covers `useState`, the deferred `setIsGameOver`, `setNumOfBombs` and `setCells`, and `useCallback`/`useEffect`. `clearCell` never reads the game-over flag, so setting it immediately gives the same result. The shallow copy `[...cells]` only re-renders and is not modelled.
- Rendering is not modelled: the `Cell` component, the class names, and the win and lose banners. The render function's win loop and its wrong-flag pass are modelled, as `CheckWin` and `MarkWrongFlagsPass`.
- The `App` form and its input ranges are not part of this model. `event.preventDefault()` is not modelled either.
- A restart is modelled as building a new `Board`. The budget's initial `null` before the first build is not modelled.
- Each cell's `x`/`y` fields are not modelled. A cell is identified by its position in the array.
- Clicks at positions outside the grid are excluded by preconditions. The script can only be clicked on cells of the grid.
- Minesweeper.Board.FloodClear, Minesweeper.Board.ClearCell, Minesweeper.Board.LeftClick, Minesweeper.Board.Chord: the list of visited cells is a ghost result. The order cells are cleared in is pinned down only up to the final board (see `Reveal.RevealedDeterministic`).
- Minesweeper.Board.RightClick: the budget check at zero is kept as written in the code, where it also blocks removing a flag. The intended rule is that placing a flag needs budget and removing one never does; as written, once the budget is zero a misplaced flag can never be removed. The corrected handler, `Cells.ToggleFlagIntended`, is stated and proved beside it (see Findings).
- Minesweeper.Board.Chord: the script's two neighbour loops in the chord are separate methods, `CountFlaggedNeighbours` and `Chord`, with `ChordOne` as the callback. `floodClear`'s neighbour loop is likewise `FloodNeighbours`, with `FloodOne` as the callback.

## Findings

| source | as written | input that shows it | evidently intended | confidence | as-written member | corrected member |
|---|---|---|---|---|---|---|
| src/App.js:171-172 | a right click is rejected whenever the budget is zero, including a click that would remove a flag | one bomb, budget 1: right-click a cell (flag set, budget 0), then right-click it again. The flag stays set and the budget stays 0 | the zero-budget check applies only when placing a flag, so two right clicks on an uncleared cell always undo each other | high (not executed) | Cells.FlagStuckAtZeroBudget | Cells.IntendedToggleTwiceRestores |
