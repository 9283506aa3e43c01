/** Geometry of the grid and the sets of cells the engine's invariants speak
    about: the safe zone around the first click, the mines around a cell, and the
    cells in each status. */
module Board {
  import opened Types

  /** A (row, column) coordinate. */
  type Pos = (int, int)

  predicate InBounds(rows: int, cols: int, r: int, c: int)
  {
    0 <= r < rows && 0 <= c < cols
  }

  /** (r2, c2) lies within Chebyshev distance 1 of (r, c): the cell itself or one
      of its up to eight Moore neighbours. */
  predicate Near(r: int, c: int, r2: int, c2: int)
  {
    -1 <= r2 - r <= 1 && -1 <= c2 - c <= 1
  }

  /** All cells of a rows × cols grid. */
  function Cells(rows: int, cols: int): set<Pos>
  {
    set r, c | 0 <= r < rows && 0 <= c < cols :: (r, c)
  }

  /** The cells of row r. */
  function RowCells(r: int, cols: int): set<Pos>
  {
    set c | 0 <= c < cols :: (r, c)
  }

  /** The 3 × 3 block around (sr, sc), clipped at the grid's edges. */
  function SafeZone(rows: int, cols: int, sr: int, sc: int): set<Pos>
  {
    set r, c | 0 <= r < rows && 0 <= c < cols && Near(sr, sc, r, c) :: (r, c)
  }

  /** The cells where a mine may go when the first click is at (sr, sc). */
  function OutsideZone(rows: int, cols: int, sr: int, sc: int): set<Pos>
  {
    set r, c | 0 <= r < rows && 0 <= c < cols && !Near(sr, sc, r, c) :: (r, c)
  }

  /** The in-bounds cells within distance 1 of (r, c) that hold a mine. */
  function MinedNeighbours(mines: set<Pos>, rows: int, cols: int, r: int, c: int): set<Pos>
  {
    set p | p in mines && InBounds(rows, cols, p.0, p.1) && Near(r, c, p.0, p.1)
  }

  /** The number a safe cell at (r, c) must show. */
  function AdjacentMines(mines: set<Pos>, rows: int, cols: int, r: int, c: int): nat
  {
    |MinedNeighbours(mines, rows, cols, r, c)|
  }

  /** A board's contents row by row, as a value. */
  type Grid = seq<seq<Cell>>

  /** g holds exactly the cells of the array a. */
  ghost predicate Mirrors(a: array2<Cell>, g: Grid)
    reads a
  {
    |g| == a.Length0 && (forall i :: 0 <= i < a.Length0 ==> |g[i]| == a.Length1) &&
    forall i, j :: 0 <= i < a.Length0 && 0 <= j < a.Length1 ==> g[i][j] == a[i, j]
  }

  /** The contents of an array board: the two-dimensional counterpart of a[..]. */
  ghost function Snapshot(a: array2<Cell>): (g: Grid)
    reads a
    ensures |g| == a.Length0
    ensures forall i :: 0 <= i < a.Length0 ==> |g[i]| == a.Length1
    ensures forall i, j :: 0 <= i < a.Length0 && 0 <= j < a.Length1 ==> g[i][j] == a[i, j]
  {
    assert Mirrors(a, seq(a.Length0, i requires 0 <= i < a.Length0 reads a =>
      seq(a.Length1, j requires 0 <= j < a.Length1 reads a => a[i, j])));
    var g :| Mirrors(a, g);
    g
  }

  /** g has `rows` rows of `cols` cells. */
  ghost predicate Shaped(g: Grid, rows: int, cols: int)
  {
    |g| == rows && forall i :: 0 <= i < |g| ==> |g[i]| == cols
  }

  ghost function MineCells(g: Grid): set<Pos>
  {
    set i, j | 0 <= i < |g| && 0 <= j < |g[i]| && g[i][j].isMine :: (i, j)
  }

  ghost function FlaggedCells(g: Grid): set<Pos>
  {
    set i, j | 0 <= i < |g| && 0 <= j < |g[i]| && g[i][j].status == Flagged :: (i, j)
  }

  ghost function HiddenCells(g: Grid): set<Pos>
  {
    set i, j | 0 <= i < |g| && 0 <= j < |g[i]| && g[i][j].status == Hidden :: (i, j)
  }

  ghost function RevealedCells(g: Grid): set<Pos>
  {
    set i, j | 0 <= i < |g| && 0 <= j < |g[i]| && g[i][j].status == Revealed :: (i, j)
  }

  /** Mines the player has uncovered; a non-empty set means the game is lost. */
  ghost function RevealedMines(g: Grid): set<Pos>
  {
    set i, j | 0 <= i < |g| && 0 <= j < |g[i]| && g[i][j].isMine && g[i][j].status == Revealed :: (i, j)
  }

  /** Safe cells not yet revealed, flagged or not; the game is won when none is left. */
  ghost function UnrevealedSafe(g: Grid): set<Pos>
  {
    set i, j | 0 <= i < |g| && 0 <= j < |g[i]| && !g[i][j].isMine && g[i][j].status != Revealed :: (i, j)
  }

  /** Every safe cell of a rows × cols grid shows the number of mines around it. */
  ghost predicate CountsCorrect(g: Grid, rows: int, cols: int)
  {
    forall i, j :: 0 <= i < |g| && 0 <= j < |g[i]| && !g[i][j].isMine ==>
      g[i][j].neighborMines == AdjacentMines(MineCells(g), rows, cols, i, j)
  }

  /** Every cell carries its own row and column. */
  ghost predicate CoordinatesMatch(g: Grid)
  {
    forall i, j :: 0 <= i < |g| && 0 <= j < |g[i]| ==> g[i][j].x == i && g[i][j].y == j
  }

  /** No in-bounds neighbour of (r, c) is still hidden. */
  ghost predicate Uncovered(g: Grid, r: int, c: int)
  {
    forall i, j :: 0 <= i < |g| && 0 <= j < |g[i]| && Near(r, c, i, j) ==> g[i][j].status != Hidden
  }

  /** g with the cell at (r, c) replaced. */
  ghost function With(g: Grid, r: int, c: int, cell: Cell): Grid
    requires 0 <= r < |g| && 0 <= c < |g[r]|
  {
    g[r := g[r][c := cell]]
  }

  /** s with p added when `member` holds and removed otherwise. */
  function Edit(s: set<Pos>, p: Pos, member: bool): set<Pos>
  {
    if member then s + {p} else s - {p}
  }

  /** Changing the status of one cell moves that cell, and only that cell, in
      or out of each status set, and leaves mines, counts and coordinates alone. */
  lemma StatusEdit(g: Grid, r: int, c: int, st: CellStatus)
    requires 0 <= r < |g| && 0 <= c < |g[r]|
    ensures MineCells(With(g, r, c, g[r][c].(status := st))) == MineCells(g)
    ensures FlaggedCells(With(g, r, c, g[r][c].(status := st))) == Edit(FlaggedCells(g), (r, c), st == Flagged)
    ensures HiddenCells(With(g, r, c, g[r][c].(status := st))) == Edit(HiddenCells(g), (r, c), st == Hidden)
    ensures RevealedCells(With(g, r, c, g[r][c].(status := st))) == Edit(RevealedCells(g), (r, c), st == Revealed)
    ensures RevealedMines(With(g, r, c, g[r][c].(status := st))) == Edit(RevealedMines(g), (r, c), st == Revealed && g[r][c].isMine)
    ensures UnrevealedSafe(With(g, r, c, g[r][c].(status := st))) == Edit(UnrevealedSafe(g), (r, c), st != Revealed && !g[r][c].isMine)
    ensures forall rows, cols :: CountsCorrect(g, rows, cols) ==> CountsCorrect(With(g, r, c, g[r][c].(status := st)), rows, cols)
    ensures CoordinatesMatch(g) ==> CoordinatesMatch(With(g, r, c, g[r][c].(status := st)))
  {
    StatusEditMines(g, r, c, st);
    StatusEditFlags(g, r, c, st);
    StatusEditHidden(g, r, c, st);
    StatusEditRevealed(g, r, c, st);
    StatusEditRevealedMines(g, r, c, st);
    StatusEditUnrevealed(g, r, c, st);
  }

  lemma StatusEditMines(g: Grid, r: int, c: int, st: CellStatus)
    requires 0 <= r < |g| && 0 <= c < |g[r]|
    ensures MineCells(With(g, r, c, g[r][c].(status := st))) == MineCells(g)
  {
  }

  lemma StatusEditFlags(g: Grid, r: int, c: int, st: CellStatus)
    requires 0 <= r < |g| && 0 <= c < |g[r]|
    ensures FlaggedCells(With(g, r, c, g[r][c].(status := st))) == Edit(FlaggedCells(g), (r, c), st == Flagged)
  {
  }

  lemma StatusEditHidden(g: Grid, r: int, c: int, st: CellStatus)
    requires 0 <= r < |g| && 0 <= c < |g[r]|
    ensures HiddenCells(With(g, r, c, g[r][c].(status := st))) == Edit(HiddenCells(g), (r, c), st == Hidden)
  {
  }

  lemma StatusEditRevealed(g: Grid, r: int, c: int, st: CellStatus)
    requires 0 <= r < |g| && 0 <= c < |g[r]|
    ensures RevealedCells(With(g, r, c, g[r][c].(status := st))) == Edit(RevealedCells(g), (r, c), st == Revealed)
  {
  }

  lemma StatusEditRevealedMines(g: Grid, r: int, c: int, st: CellStatus)
    requires 0 <= r < |g| && 0 <= c < |g[r]|
    ensures RevealedMines(With(g, r, c, g[r][c].(status := st))) == Edit(RevealedMines(g), (r, c), st == Revealed && g[r][c].isMine)
  {
  }

  lemma StatusEditUnrevealed(g: Grid, r: int, c: int, st: CellStatus)
    requires 0 <= r < |g| && 0 <= c < |g[r]|
    ensures UnrevealedSafe(With(g, r, c, g[r][c].(status := st))) == Edit(UnrevealedSafe(g), (r, c), st != Revealed && !g[r][c].isMine)
  {
  }

  /** The write `b[r, c] := b[r, c].(status := st)` on an array board. */
  method SetStatus(b: array2<Cell>, r: int, c: int, st: CellStatus)
    requires InBounds(b.Length0, b.Length1, r, c)
    modifies b
    ensures Snapshot(b) == With(old(Snapshot(b)), r, c, old(b[r, c]).(status := st))
  {
    ghost var g0: Grid := Snapshot(b);
    b[r, c] := b[r, c].(status := st);
    ghost var g1: Grid := Snapshot(b);
    ghost var cell := g0[r][c].(status := st);
    forall i | 0 <= i < b.Length0
      ensures g1[i] == With(g0, r, c, cell)[i]
    {
      assert forall j | 0 <= j < b.Length1 :: g1[i][j] == With(g0, r, c, cell)[i][j];
    }
  }

  lemma MineCellsMember(g: Grid, i: int, j: int)
    requires 0 <= i < |g| && 0 <= j < |g[i]|
    ensures (i, j) in MineCells(g) <==> g[i][j].isMine
  {
  }

  /** A cell showing 0 under correct counts has no mine around it. */
  lemma ZeroCountMeansSafe(mines: set<Pos>, rows: int, cols: int, r: int, c: int, r2: int, c2: int)
    requires AdjacentMines(mines, rows, cols, r, c) == 0
    requires InBounds(rows, cols, r2, c2) && Near(r, c, r2, c2)
    ensures (r2, c2) !in mines
  {
    assert (r2, c2) in mines ==> (r2, c2) in MinedNeighbours(mines, rows, cols, r, c);
    assert MinedNeighbours(mines, rows, cols, r, c) == {};
  }

  lemma SubsetCard<T>(small: set<T>, big: set<T>)
    requires small <= big
    ensures |small| <= |big|
    ensures |big - small| == |big| - |small|
  {
    assert big == (big - small) + small;
    assert (big - small) * small == {};
  }

  lemma {:induction false} RowCard(r: int, cols: nat)
    ensures |RowCells(r, cols)| == cols
  {
    if cols > 0 {
      RowCard(r, cols - 1);
      assert RowCells(r, cols) == RowCells(r, cols - 1) + {(r, cols - 1)};
    } else {
      assert RowCells(r, cols) == {};
    }
  }

  lemma DisjointUnionCard<T>(a: set<T>, b: set<T>)
    requires a * b == {}
    ensures |a + b| == |a| + |b|
  {
  }

  lemma MulStep(rows: nat, cols: nat)
    requires rows > 0
    ensures (rows - 1) * cols + cols == rows * cols
  {
  }

  /** A rows × cols grid has rows * cols cells. */
  lemma {:induction false} CellsCard(rows: nat, cols: nat)
    ensures |Cells(rows, cols)| == rows * cols
  {
    if rows > 0 {
      CellsCard(rows - 1, cols);
      RowCard(rows - 1, cols);
      CellsSplit(rows - 1, cols);
      DisjointUnionCard(Cells(rows - 1, cols), RowCells(rows - 1, cols));
      MulStep(rows, cols);
    } else {
      assert Cells(rows, cols) == {};
    }
  }

  lemma CellsSplit(r: nat, cols: int)
    ensures Cells(r + 1, cols) == Cells(r, cols) + RowCells(r, cols)
    ensures Cells(r, cols) * RowCells(r, cols) == {}
  {
    forall p | p in Cells(r + 1, cols)
      ensures p in Cells(r, cols) + RowCells(r, cols)
    {
      if p.0 == r { assert p in RowCells(r, cols); }
    }
  }

  /** The three cells of row r from column c - 1 to column c + 1. */
  function Triple(r: int, c: int): set<Pos>
  {
    {(r, c - 1), (r, c), (r, c + 1)}
  }

  /** The 3 × 3 block centred on (r, c), unclipped. */
  function Block(r: int, c: int): set<Pos>
  {
    Triple(r - 1, c) + Triple(r, c) + Triple(r + 1, c)
  }

  lemma BlockCard(r: int, c: int)
    ensures |Block(r, c)| <= 9
    ensures (r, c) in Block(r, c)
  {
    assert |Triple(r - 1, c)| == 3 && |Triple(r, c)| == 3 && |Triple(r + 1, c)| == 3;
  }

  lemma InBlock(p: Pos, r: int, c: int)
    requires Near(r, c, p.0, p.1)
    ensures p in Block(r, c)
  {
    if p.1 == c - 1 {
      assert p == (p.0, c - 1);
    } else if p.1 == c {
      assert p == (p.0, c);
    } else {
      assert p == (p.0, c + 1);
    }
  }

  /** The safe zone holds at most nine cells. */
  lemma SafeZoneCard(rows: int, cols: int, sr: int, sc: int)
    ensures |SafeZone(rows, cols, sr, sc)| <= 9
  {
    forall p | p in SafeZone(rows, cols, sr, sc)
      ensures p in Block(sr, sc)
    {
      InBlock(p, sr, sc);
    }
    BlockCard(sr, sc);
    SubsetCard(SafeZone(rows, cols, sr, sc), Block(sr, sc));
  }

  /** The safe zone and its complement split the grid, so at least
      rows * cols - 9 cells are open to mines. */
  lemma OutsideZoneCard(rows: nat, cols: nat, sr: int, sc: int)
    ensures |OutsideZone(rows, cols, sr, sc)| + |SafeZone(rows, cols, sr, sc)| == rows * cols
    ensures |OutsideZone(rows, cols, sr, sc)| >= rows * cols - 9
  {
    var out, zone := OutsideZone(rows, cols, sr, sc), SafeZone(rows, cols, sr, sc);
    assert Cells(rows, cols) == out + zone;
    assert out * zone == {};
    CellsCard(rows, cols);
    SafeZoneCard(rows, cols, sr, sc);
  }

  /** Settings with `mines <= rows * cols - 9` leave room for every mine,
      wherever the first click lands. */
  lemma PlacementFeasible(s: DifficultySettings, sr: int, sc: int)
    requires s.mines + 9 <= s.rows * s.cols
    ensures s.mines <= |OutsideZone(s.rows, s.cols, sr, sc)|
  {
    OutsideZoneCard(s.rows, s.cols, sr, sc);
  }

  /** A safe cell has at most eight mines around it. */
  lemma AdjacentMinesAtMost8(mines: set<Pos>, rows: int, cols: int, r: int, c: int)
    requires (r, c) !in mines
    ensures AdjacentMines(mines, rows, cols, r, c) <= 8
  {
    var ring := Block(r, c) - {(r, c)};
    forall p | p in MinedNeighbours(mines, rows, cols, r, c)
      ensures p in ring
    {
      InBlock(p, r, c);
    }
    BlockCard(r, c);
    SubsetCard({(r, c)}, Block(r, c));
    SubsetCard(MinedNeighbours(mines, rows, cols, r, c), ring);
  }

  /** The bound is reached: on a 3 × 3 grid mined everywhere but the centre,
      the centre shows 8. */
  lemma CentreOfFullRing()
    ensures AdjacentMines(Cells(3, 3) - {(1, 1)}, 3, 3, 1, 1) == 8
  {
    var mines := Cells(3, 3) - {(1, 1)};
    assert MinedNeighbours(mines, 3, 3, 1, 1) == mines;
    CellsCard(3, 3);
    assert (1, 1) in Cells(3, 3);
  }
}
