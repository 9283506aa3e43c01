/** The invariant the game keeps between gestures, stated over board values,
    and the facts about it that each gesture of App.tsx relies on. */
module Rules {
  import opened Types
  import opened Constants
  import opened Board
  import opened Placement
  import opened Reveal

  /** What each phase says about the board (types.ts:24): before the first
      click nothing is mined or revealed; while playing no mine is revealed and
      some safe cell is still covered; a won board has every safe cell and no
      mine revealed; a lost board shows a mine. */
  ghost predicate PhaseConsistent(phase: GameStatus, g: Grid)
  {
    match phase
    case Ready => MineCells(g) == {} && RevealedCells(g) == {}
    case Playing => UnrevealedSafe(g) != {} && RevealedMines(g) == {}
    case Won => UnrevealedSafe(g) == {} && RevealedMines(g) == {}
    case Lost => RevealedMines(g) != {}
  }

  /** The invariant of a game with settings s: the board is s.rows × s.cols,
      every cell knows its own position, every safe cell shows its number, the
      board holds no mine or exactly s.mines, the flag counter counts the
      flagged cells, and the phase agrees with the board. */
  ghost predicate Consistent(g: Grid, s: DifficultySettings, phase: GameStatus, flags: int)
  {
    Shaped(g, s.rows, s.cols) && CoordinatesMatch(g) && CountsCorrect(g, s.rows, s.cols) &&
    (MineCells(g) == {} || |MineCells(g)| == s.mines) &&
    flags == |FlaggedCells(g)| && PhaseConsistent(phase, g)
  }

  /** The board initializeBoard builds (App.tsx:22-35): every position of
      the rows × cols grid holds a hidden cell that knows its position, and
      no cell is mined, flagged or revealed. */
  function FreshGrid(rows: nat, cols: nat): (g: Grid)
    ensures Shaped(g, rows, cols) && CoordinatesMatch(g)
    ensures HiddenCells(g) == Cells(rows, cols)
    ensures MineCells(g) == {} && FlaggedCells(g) == {} && RevealedCells(g) == {}
  {
    seq(rows, x => seq(cols, y => Cell(x, y, false, Hidden, 0)))
  }

  /** A fresh board for a preset is a consistent board in phase ready with no
      flags. */
  lemma FreshGridConsistent(s: DifficultySettings)
    ensures Consistent(FreshGrid(s.rows, s.cols), s, Ready, 0)
  {
    var g: Grid := FreshGrid(s.rows, s.cols);
    forall i, j | 0 <= i < |g| && 0 <= j < |g[i]| && !g[i][j].isMine
      ensures g[i][j].neighborMines == AdjacentMines(MineCells(g), s.rows, s.cols, i, j)
    {
      assert MinedNeighbours({}, s.rows, s.cols, i, j) == {};
    }
  }

  /** The flag gesture on a covered cell (App.tsx:131-137). */
  function ToggleFlag(st: CellStatus): (t: CellStatus)
    requires st != Revealed
    ensures t != Revealed && t != st
  {
    if st == Hidden then Flagged else Hidden
  }

  /** g after the flag gesture at the covered cell (r, c): that cell goes from
      hidden to flagged or back, and every other cell is left as it was. */
  ghost function Toggled(g: Grid, r: int, c: int): (t: Grid)
    requires 0 <= r < |g| && 0 <= c < |g[r]| && g[r][c].status != Revealed
    ensures |t| == |g| && forall i :: 0 <= i < |g| ==> |t[i]| == |g[i]|
    ensures t[r][c] == g[r][c].(status := if g[r][c].status == Hidden then Flagged else Hidden)
    ensures forall i, j :: 0 <= i < |g| && 0 <= j < |g[i]| && (i, j) != (r, c) ==> t[i][j] == g[i][j]
  {
    With(g, r, c, g[r][c].(status := ToggleFlag(g[r][c].status)))
  }

  /** Toggling a flag twice gives back the board, and so the count. */
  lemma ToggleTwice(g: Grid, r: int, c: int)
    requires 0 <= r < |g| && 0 <= c < |g[r]| && g[r][c].status != Revealed
    ensures Toggled(Toggled(g, r, c), r, c) == g
  {
    var g2 := Toggled(Toggled(g, r, c), r, c);
    assert g2[r] == g[r];
  }

  /** A flag gesture keeps the invariant, with the counter one up when a flag
      was placed and one down when it was lifted (App.tsx:131-137). */
  lemma ToggleKeeps(g: Grid, s: DifficultySettings, phase: GameStatus, flags: int, r: int, c: int)
    requires Consistent(g, s, phase, flags)
    requires 0 <= r < |g| && 0 <= c < |g[r]| && g[r][c].status != Revealed
    ensures Consistent(Toggled(g, r, c), s, phase, flags + if g[r][c].status == Hidden then 1 else -1)
  {
    var st := ToggleFlag(g[r][c].status);
    StatusEdit(g, r, c, st);
    StatusEditMember(g, r, c);
    var g' := Toggled(g, r, c);
    assert (r, c) !in UnrevealedSafe(g) ==> g[r][c].isMine;
  }

  /** Membership of the flagged, revealed and unrevealed-safe sets. */
  lemma StatusEditMember(g: Grid, r: int, c: int)
    requires 0 <= r < |g| && 0 <= c < |g[r]|
    ensures (r, c) in FlaggedCells(g) <==> g[r][c].status == Flagged
    ensures (r, c) in UnrevealedSafe(g) <==> !g[r][c].isMine && g[r][c].status != Revealed
    ensures (r, c) in RevealedCells(g) <==> g[r][c].status == Revealed
  {
  }

  /** A first click on a flagged cell moves the phase to playing and keeps the
      board it had (App.tsx:115-119): that board has no mine and nothing
      revealed, so it is a consistent playing board. */
  lemma ReadyToPlaying(g: Grid, s: DifficultySettings, flags: int, r: int, c: int)
    requires Consistent(g, s, Ready, flags) && InBounds(s.rows, s.cols, r, c)
    ensures Consistent(g, s, Playing, flags)
  {
    StatusEditMember(g, r, c);
    MineCellsMember(g, r, c);
    assert (r, c) in UnrevealedSafe(g);
    assert RevealedMines(g) <= RevealedCells(g);
  }

  /** The board right after placement on a first click at (r, c). */
  ghost predicate Armed(g0: Grid, g1: Grid, s: DifficultySettings, r: int, c: int)
  {
    SameLayout(g0, g1) && CountsCorrect(g1, s.rows, s.cols) &&
    |MineCells(g1)| == s.mines && MineCells(g1) <= OutsideZone(s.rows, s.cols, r, c)
  }

  /** The first click lands on a safe cell with no mine around it, so the first
      reveal always opens an area. */
  lemma FirstClickOpens(g: Grid, s: DifficultySettings, r: int, c: int)
    requires Shaped(g, s.rows, s.cols) && InBounds(s.rows, s.cols, r, c)
    requires CountsCorrect(g, s.rows, s.cols) && MineCells(g) <= OutsideZone(s.rows, s.cols, r, c)
    ensures !g[r][c].isMine && g[r][c].neighborMines == 0
  {
    MineCellsMember(g, r, c);
    assert (r, c) !in OutsideZone(s.rows, s.cols, r, c);
    assert MinedNeighbours(MineCells(g), s.rows, s.cols, r, c) == {};
  }

  /** Placement on a first click at (r, c) turns a consistent ready board into
      a consistent playing board in which (r, c) is still covered and safe. */
  lemma ArmedConsistent(g0: Grid, g1: Grid, s: DifficultySettings, flags: int, r: int, c: int)
    requires Consistent(g0, s, Ready, flags) && InBounds(s.rows, s.cols, r, c)
    requires Armed(g0, g1, s, r, c)
    ensures Consistent(g1, s, Playing, flags)
    ensures !g1[r][c].isMine && g1[r][c].neighborMines == 0 && g1[r][c].status == g0[r][c].status
  {
    SameLayoutKeeps(g0, g1);
    FirstClickOpens(g1, s, r, c);
    StatusEditMember(g0, r, c);
    StatusEditMember(g1, r, c);
    assert (r, c) in UnrevealedSafe(g1);
    assert RevealedMines(g1) <= RevealedCells(g1);
  }

  /** The outcome of a click on the covered, unflagged cell (r, c) of a
      consistent playing board `armed`: after the reveal leads to g1 (with the
      facts RevealCell states) and checkWin has run, the game is consistent
      again (App.tsx:120-123). */
  lemma ClickKeeps(armed: Grid, g1: Grid, s: DifficultySettings, flags: int, r: int, c: int, phase: GameStatus)
    requires Consistent(armed, s, Playing, flags)
    requires 0 <= r < |armed| && 0 <= c < |armed[r]| && armed[r][c].status != Flagged
    requires OnlyReveals(armed, g1)
    requires armed[r][c].status != Hidden ==> g1 == armed
    requires armed[r][c].status == Hidden && armed[r][c].isMine ==>
      g1 == With(armed, r, c, armed[r][c].(status := Revealed))
    requires !armed[r][c].isMine ==> RevealedMines(g1) == RevealedMines(armed)
    requires phase == if UnrevealedSafe(g1) == {} then Won else AfterReveal(Playing, armed, g1)
    ensures Consistent(g1, s, phase, flags)
  {
    OnlyRevealsKeeps(armed, g1);
    if armed[r][c].status == Hidden && armed[r][c].isMine {
      StatusEdit(armed, r, c, Revealed);
      assert (r, c) in RevealedMines(g1);
    }
  }

  /** The mines-left display never goes below 0 nor, with a non-negative
      counter, above the number of mines; otherwise it is mines - flags. */
  function MinesLeft(mines: nat, flags: int): (n: int)
    ensures 0 <= n
    ensures flags >= 0 ==> n <= mines
    ensures n >= mines - flags
    ensures n == 0 || n == mines - flags
  {
    if mines - flags > 0 then mines - flags else 0
  }

  /** The number on a safe cell of a consistent board is at most 8, so it always
      has an entry in the colour table (constants.ts:10-20). */
  lemma CountHasColour(g: Grid, s: DifficultySettings, i: int, j: int)
    requires CountsCorrect(g, s.rows, s.cols) && 0 <= i < |g| && 0 <= j < |g[i]| && !g[i][j].isMine
    ensures g[i][j].neighborMines <= 8
    ensures NumberColor(g[i][j].neighborMines) == "" <==> g[i][j].neighborMines == 0
  {
    MineCellsMember(g, i, j);
    AdjacentMinesAtMost8(MineCells(g), s.rows, s.cols, i, j);
  }
}
