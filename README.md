# Minesweeper board engine in Dafny

This project models the board engine of a browser Minesweeper game: the game
component in `App.tsx`, the data model in `types.ts` and the preset tables in
`constants.ts`. The engine's state is three fields: the board, a grid of cells;
the game phase (`ready`, `playing`, `won`, `lost`); and a running flag count.
Two gestures drive it. A click reveals a cell, and the first click places the
mines. A right click toggles a flag.

The project has eight modules:

- `Types` (types.dfy) holds the data model as datatypes: `CellStatus`, `Cell`,
  `Difficulty`, `DifficultySettings` and `GameStatus` (types.ts:2-24).
- `Constants` (constants.dfy) holds the difficulty presets and the table of
  number colours (constants.ts:4-20).
- `Board` (board.dfy) holds the grid geometry. It defines `Snapshot`, which
  turns an `array2<Cell>` into a value. It also defines the sets of cells the
  invariants talk about: mines, flags, hidden cells, revealed mines, and
  unrevealed safe cells. The counting lemmas live here too: the size of the
  grid, the size of the safe zone, and at most 8 mines around a cell.
- `Scan` (scan.dfy) holds the two counting loops, each proved against a set
  cardinality. The first counts the mines in the 3 × 3 block (App.tsx:73-79).
  The second counts the unrevealed safe cells (App.tsx:103-108).
- `Placement` (placement.dfy) holds the two loops of `placeMines`. The first
  places the mines; the second writes the neighbour counts (App.tsx:61-83).
- `Reveal` (reveal.dfy) states what a flood-fill reveal may do to a board,
  using two grid values. `OnlyReveals` says only hidden cells turn into
  revealed ones. `CascadeClosed` says every zero cell it opened has no
  hidden neighbour left, which bounds the opened area from below.
  `RevealOrder` bounds it from above. It lists the opened cells in the order
  they were opened, each with a parent. The reveal methods start the list
  at the clicked cell itself, and return it empty when that cell was not
  hidden. The parent
  of any later cell is an earlier cell, which was hidden, safe and showing 0
  before the reveal, and is a neighbour of the later cell. The module also has the lemmas that carry these facts through
  the recursion.
- `Rules` (rules.dfy) holds the invariant `Consistent` that the game keeps
  between gestures, the flag toggle, and the mines-left display.
- `Minesweeper` (game.dfy) holds the class `Game`, whose fields are
  `difficulty`, `board: array2<Cell>`, `phase` and `flagsCount`. Its methods
  are the operations of `App.tsx`, and they edit the board in place as the
  source does.

`Game.Valid()` is the invariant. It says:

- the board has the preset's shape;
- every cell carries its own row and column;
- every safe cell shows the number of mines around it;
- the board holds either no mine or exactly the preset's number;
- the flag counter equals the number of flagged cells;
- the phase agrees with the board.

For the last point:

- `ready` means no mine and nothing revealed;
- `playing` means no mine revealed and some safe cell still covered;
- `won` means every safe cell revealed and no mine revealed;
- `lost` means a mine revealed.

Every gesture keeps `Valid()`.

The source updates the board in place, so the reveal is a pair of mutually
recursive methods on the array. `RevealCell` is `revealCell` itself.
`RevealNeighbours` and `RevealOffset` are its 3 × 3 loop and that loop's body.
The recursion ends because every call that does anything first removes one cell
from the set of hidden cells. That set is the `decreases` measure.

`Math.random` is not modelled as a procedure. A rejected draw (inside the safe
zone, or already a mine) changes nothing. So `ScatterMines` takes each accepted
draw as a nondeterministic choice among the cells the test at App.tsx:66 lets
through. Termination of the rejection loop is then a precondition:
`Board.PlacementFeasible` shows that every preset meets it.

React's `setGameStatus` is modelled as an assignment to `phase` in program
order. A mine sets `lost` inside the reveal (App.tsx:89). `checkWin` may then
set `won` (App.tsx:109), and the model keeps that order.

Two behaviours of the code are worth stating:

- A click in phase `ready` on a flagged cell still runs `placeMines` on the
  copy and sets `playing` (App.tsx:115-118). It then returns before the copy is
  committed (App.tsx:119). The model reproduces this: the old, mine-free board
  stays, and the phase becomes `playing` (`Game.HandleCellClick`,
  `Rules.ReadyToPlaying`). So a `playing` board need not hold mines, and
  `Valid()` does not demand that it does.
- The code checks no precondition for mine placement. If the board had fewer
  free cells than mines, the rejection loop would never end. The model
  requires `mines <= |OutsideZone - MineCells|`, and every preset meets it
  (`Constants.DifficultyConfig`, `Board.PlacementFeasible`).

## Model

| member | source | states |
|---|---|---|
| Constants.DifficultyConfig | constants.ts:4-8 | every preset has positive dimensions and leaves at least `mines` cells outside any 3 × 3 zone (`mines + 9 <= rows * cols`); a total function on `Difficulty`, so there is exactly one preset per difficulty |
| Constants.NumberColor | constants.ts:10-20 | every count from 0 to 8 indexes the nine-entry table, and the style is empty exactly for count 0 |
| Board.PlacementFeasible | App.tsx:62-69 | settings with `mines + 9 <= rows * cols` leave at least `mines` cells outside the clipped safe zone, wherever the first click lands, so the rejection loop can finish |
| Board.OutsideZoneCard | App.tsx:66 | the cells the rejection test lets through and the safe zone partition the grid, so at least `rows * cols - 9` cells are open to mines |
| Board.SafeZoneCard | App.tsx:66 | the clipped 3 × 3 zone around the first click holds at most nine cells |
| Board.CellsCard | App.tsx:63-71 | a `rows × cols` grid has exactly `rows * cols` cells |
| Board.AdjacentMinesAtMost8 | App.tsx:73-80 | a safe cell has at most eight mines around it, so its count lies in 0..8 |
| Board.CentreOfFullRing | App.tsx:73-80 | the bound 8 is reached: the centre of a 3 × 3 board mined everywhere else shows 8 |
| Board.ZeroCountMeansSafe | App.tsx:92-96 | under correct counts, no in-bounds neighbour of a cell showing 0 is a mine |
| Board.StatusEdit | App.tsx:87 | changing one cell's status moves exactly that cell into or out of the flagged, hidden, revealed, revealed-mine and unrevealed-safe sets, and keeps mines, counts and coordinates |
| Board.SetStatus | App.tsx:87 | the status write on the array changes exactly that cell of the board's contents |
| Scan.CountAdjacentMines | App.tsx:73-79 | the 3 × 3 loop returns the number of in-bounds cells within distance 1 that hold a mine |
| Scan.CountUnrevealedSafe | App.tsx:103-108 | the win-check loop returns the number of safe cells that are not revealed, flagged ones included |
| Placement.PutMine | App.tsx:67 | the write adds exactly the chosen cell to the mines and changes nothing else |
| Placement.ScatterMines | App.tsx:62-69 | exactly `count` new distinct mines are placed, none within distance 1 of the first click, and nothing but `isMine` changes |
| Placement.ComputeNeighborCounts | App.tsx:70-82 | every safe cell gets the number of mines around it; each mine cell is left exactly as it was; `isMine`, status and coordinates are unchanged |
| Placement.SameLayoutKeeps | App.tsx:61-83 | placement leaves the flagged, revealed and hidden cells and the coordinates as they were |
| Reveal.RevealOne | App.tsx:86-92 | revealing one hidden cell is a reveal step, and it leaves the cascade closed exactly when the cell is a mine, shows a number, or has no hidden neighbour |
| Reveal.CascadeClosedTrans | App.tsx:92-98 | two reveals in a row only turn hidden cells into revealed ones and leave the cascade closed |
| Reveal.AfterRevealTrans | App.tsx:88-90 | the phase after two reveals in a row is the phase after the combined reveal: `lost` once any mine has been revealed, unchanged otherwise |
| Reveal.OnlyRevealsKeeps | App.tsx:85-100 | a reveal keeps mines, flags, counts and coordinates; it only shrinks the hidden and unrevealed-safe cells and only grows the revealed cells and revealed mines |
| Reveal.AfterReveal | App.tsx:88-90 | the phase after a reveal is the old phase or `lost`, and it is `lost` exactly when it was already `lost` or the reveal uncovered a mine |
| Reveal.OrderOne | App.tsx:86-90 | revealing one hidden cell, a mine or a numbered one, opens exactly that cell, and it is its own root |
| Reveal.OrderAppend | App.tsx:92-98 | the opened cells of two reveals in a row, the second from a neighbour of a zero cell, are the two lists joined, with every parent link still valid |
| Reveal.OrderFromCentre | App.tsx:86-98 | a hidden safe zero cell followed by the reveal of its neighbours opens exactly that cell and then what the neighbours opened; every later cell has a parent |
| Reveal.RevealWithin | App.tsx:85-100 | every cell a reveal opens lies in any set of cells that holds the clicked cell and is closed under one step from a hidden safe zero cell to an in-bounds neighbour |
| Reveal.StopsAtNumber | App.tsx:91-98 | on the row `0 1 M 1 0`, a reveal from the leftmost cell opens only the first two cells: the spread stops at the cell showing 1 |
| Rules.FreshGrid | App.tsx:22-35 | the fresh board has the preset's shape, every cell carries its own position and is hidden, and no cell is mined, flagged or revealed |
| Rules.FreshGridConsistent | App.tsx:21-42 | the board `initializeBoard` builds is a consistent `ready` board with no flags |
| Rules.ToggleFlag | App.tsx:131-137 | the toggle maps a covered status to the other covered status |
| Rules.Toggled | App.tsx:131-137 | the flag gesture changes only the target cell, and it turns a hidden cell into a flagged one and a flagged one into a hidden one |
| Rules.ToggleTwice | App.tsx:126-140 | toggling the same cell twice gives back the board, and with it the cell and the flag count |
| Rules.ToggleKeeps | App.tsx:131-137 | a toggle keeps the invariant with the counter one up when a flag is placed and one down when it is lifted |
| Rules.ReadyToPlaying | App.tsx:115-119 | a first click on a flagged cell leaves a consistent `playing` board: the old board, mine-free, with nothing revealed |
| Rules.FirstClickOpens | App.tsx:115-120 | after placement the clicked cell is safe and shows 0, so the first reveal opens an area |
| Rules.ArmedConsistent | App.tsx:115-118 | placement turns a consistent `ready` board into a consistent `playing` board with the clicked cell still covered |
| Rules.ClickKeeps | App.tsx:119-123 | a reveal on a consistent `playing` board, followed by the win check, gives a consistent board in the resulting phase |
| Rules.MinesLeft | App.tsx:268 | `max(0, mines - flags)` is never negative, never above `mines` when flags are non-negative, and is either 0 or `mines - flags` |
| Rules.CountHasColour | constants.ts:10-20 | on a consistent board the count of every safe cell indexes the colour table, and only 0 maps to the empty style |
| Minesweeper.Uncover | App.tsx:87 | a hidden cell becomes revealed: the hidden cells lose exactly that cell, and the revealed mines gain it exactly when it is a mine |
| Minesweeper.CopyBoard | App.tsx:114 | the deep copy is a fresh array with the same dimensions and the same cells |
| Minesweeper.ToggleCell | App.tsx:131-137 | the status write of the flag gesture produces exactly the toggled board |
| Minesweeper.Game.Settings | App.tsx:19 | the settings in force are one of the three presets, each a non-empty board with room for its mines outside the 3 × 3 block around a first click |
| Minesweeper.Game.constructor | App.tsx:9-13 | the initial state is Beginner, phase `ready`, no flags, and a fresh board that satisfies the invariant |
| Minesweeper.Game.InitializeBoard | App.tsx:21-42 | a fresh `rows × cols` board with every cell safe, hidden, showing 0 and carrying its own position; phase `ready`, flag count 0, invariant re-established |
| Minesweeper.Game.SelectDifficulty | App.tsx:44-46 | a new difficulty (the buttons of line 246) rebuilds the board as `InitializeBoard` does; picking the current one changes nothing |
| Minesweeper.Game.PlaceMines | App.tsx:61-83 | exactly the preset's number of mines, none within distance 1 of the clicked cell, correct counts on every safe cell, statuses and coordinates untouched |
| Minesweeper.Game.CheckWin | App.tsx:102-110 | the phase becomes `won` exactly when no safe cell is left unrevealed, and is left alone otherwise |
| Minesweeper.Game.ArmedCopy | App.tsx:114-118 | the working copy, with mines placed around the clicked cell on a first click, and the phase now `playing` |
| Minesweeper.Game.HandleCellClick | App.tsx:112-124 | a won or lost game ignores the click; an already revealed target leaves the board contents and phase `playing` as they were; a flagged target ends the click with the board uncommitted (and phase `playing`); otherwise the committed board is the copy with only reveals, with the cascade closed, the target revealed, and the phase `won` exactly when no safe cell is left, else `lost` once a mine was revealed, else `playing`; the cells it opened are exactly those of a reveal order that starts at the target and is empty exactly when the target was not hidden, so none lies beyond the zero region around the target; the invariant holds afterwards |
| Minesweeper.Game.RevealAndCheck | App.tsx:120-123 | the reveal followed by the win check on the copy: a revealed target leaves the copy and the phase `playing` unchanged; otherwise only reveals, the cascade closed, the target revealed, the opened cells exactly a reveal order that starts at the target and is empty exactly when the target was not hidden, the phase `won` exactly when no safe cell is left, and the resulting board consistent for the resulting phase |
| Minesweeper.Game.HandleContextMenu | App.tsx:126-140 | only a `ready` or `playing` game reacts, and only to a covered cell; the board becomes the toggled board and the counter moves by +1 or -1 accordingly; the phase never changes and the invariant holds |
| Minesweeper.Game.FlaggedCopy | App.tsx:129-137 | the copy with the flag toggled is consistent with the adjusted counter |
| Minesweeper.Game.Commit | App.tsx:121 | committing a consistent copy re-establishes the invariant |
| Minesweeper.Game.RevealCell | App.tsx:85-100 | a cell that is not hidden leaves the board unchanged; otherwise only hidden cells become revealed, the target ends revealed, a mine or a numbered cell is revealed alone, a mine sets `lost`, the cascade is closed, and under correct counts from a safe cell no mine is revealed; the cells it opens are exactly a returned reveal order that starts at the target, and that order is empty exactly when the target was not hidden |
| Minesweeper.Game.RevealNeighbours | App.tsx:92-99 | around a revealed zero cell, every in-bounds neighbour ends up not hidden, with only reveals and the cascade closed; the cells it opens are exactly a returned reveal order whose first links go to neighbours of the zero cell |
| Minesweeper.Game.RevealOffset | App.tsx:95-96 | one step of the neighbour loop keeps the scan invariant, settles the neighbour at that offset, and extends the reveal order by what that neighbour opened |

## Left out

- The timer effect (App.tsx:48-59) is left out: it is time-based plumbing with no effect on the board.
- `handleAskAI` (App.tsx:142-149) and the hint service are left out: a network call that never changes the board, phase or flags.
- The hint state (`setHint(null)` at App.tsx:40, 122 and 139) is left out: it is display state only.
- The cell component and all markup (App.tsx:151 onwards) are left out: rendering only.
- Minesweeper.Game.InitializeBoard: clearing the timer (App.tsx:38 and 41) is not modelled, for the same reason as the timer.
- Placement.ScatterMines: the uniformity of `Math.random` is not modelled. The loop takes each accepted draw as a nondeterministic choice, because uniformity is a probabilistic property. The model also does not capture that rejected draws are possible and are retried.
- React's batching of state updates is not modelled; each `set…` call is an assignment in program order.
- Clicks outside the board are not modelled: the rendering only produces in-bounds coordinates, so the handlers require them.
- JavaScript numbers are modelled as unbounded integers: the board sizes and counts are far below any precision limit.
- `NumberColor` is the table lookup made when a cell is drawn (CellComponent.tsx). The drawing itself is left out.
