/** The two counting scans of the engine: the 3 × 3 scan that counts the mines
    around a cell (App.tsx:73-79) and the whole-board scan that counts the safe
    cells still to be revealed (App.tsx:103-108). Neither changes the board. */
module Scan {
  import opened Types
  import opened Board

  /** The mines around (r, c) whose offset comes before (dr, dc) in the scan
      order: row offsets ascending, then column offsets ascending. */
  function ScannedMines(mines: set<Pos>, rows: int, cols: int, r: int, c: int, dr: int, dc: int): set<Pos>
  {
    set p | p in MinedNeighbours(mines, rows, cols, r, c) && (p.0 < r + dr || (p.0 == r + dr && p.1 < c + dc))
  }

  lemma ScanStep(mines: set<Pos>, rows: int, cols: int, r: int, c: int, dr: int, dc: int)
    ensures ScannedMines(mines, rows, cols, r, c, dr, dc + 1) ==
      ScannedMines(mines, rows, cols, r, c, dr, dc) +
      (if InBounds(rows, cols, r + dr, c + dc) && (r + dr, c + dc) in mines && Near(r, c, r + dr, c + dc)
       then {(r + dr, c + dc)} else {})
    ensures (r + dr, c + dc) !in ScannedMines(mines, rows, cols, r, c, dr, dc)
  {
  }

  lemma ScanRowDone(mines: set<Pos>, rows: int, cols: int, r: int, c: int, dr: int)
    ensures ScannedMines(mines, rows, cols, r, c, dr, 2) == ScannedMines(mines, rows, cols, r, c, dr + 1, -1)
  {
  }

  lemma ScanEnds(mines: set<Pos>, rows: int, cols: int, r: int, c: int)
    ensures ScannedMines(mines, rows, cols, r, c, -1, -1) == {}
    ensures ScannedMines(mines, rows, cols, r, c, 2, -1) == MinedNeighbours(mines, rows, cols, r, c)
  {
  }

  /** One step of the 3 × 3 scan adds one to the count exactly when the cell
      it looks at is on the board and holds a mine. */
  lemma ScanCount(mines: set<Pos>, rows: int, cols: int, r: int, c: int, dr: int, dc: int, count: nat)
    requires -1 <= dr <= 1 && -1 <= dc <= 1
    requires count == |ScannedMines(mines, rows, cols, r, c, dr, dc)|
    ensures |ScannedMines(mines, rows, cols, r, c, dr, dc + 1)| ==
      count + if InBounds(rows, cols, r + dr, c + dc) && (r + dr, c + dc) in mines then 1 else 0
  {
    ScanStep(mines, rows, cols, r, c, dr, dc);
  }

  /** The inner loops of the counting pass: the number of in-bounds cells at
      Chebyshev distance at most 1 from (r, c), the cell itself included, that
      hold a mine. */
  method CountAdjacentMines(b: array2<Cell>, r: int, c: int) returns (count: nat)
    ensures count == AdjacentMines(MineCells(Snapshot(b)), b.Length0, b.Length1, r, c)
  {
    ghost var g := Snapshot(b);
    ghost var mines := MineCells(g);
    count := 0;
    ScanEnds(mines, b.Length0, b.Length1, r, c);
    for dr := -1 to 2
      invariant count == |ScannedMines(mines, b.Length0, b.Length1, r, c, dr, -1)|
    {
      for dc := -1 to 2
        invariant count == |ScannedMines(mines, b.Length0, b.Length1, r, c, dr, dc)|
      {
        var nr, nc := r + dr, c + dc;
        ScanCount(mines, b.Length0, b.Length1, r, c, dr, dc, count);
        if InBounds(b.Length0, b.Length1, nr, nc) {
          MineCellsMember(g, nr, nc);
        }
        if nr >= 0 && nr < b.Length0 && nc >= 0 && nc < b.Length1 && b[nr, nc].isMine {
          count := count + 1;
        }
      }
      ScanRowDone(mines, b.Length0, b.Length1, r, c, dr);
    }
  }

  /** The unrevealed safe cells that come before (r, c) in row-major order. */
  ghost function UnrevealedSafeBefore(g: Grid, r: int, c: int): set<Pos>
  {
    set p | p in UnrevealedSafe(g) && (p.0 < r || (p.0 == r && p.1 < c))
  }

  lemma UnrevealedStep(g: Grid, r: int, c: int)
    requires 0 <= r < |g| && 0 <= c < |g[r]|
    ensures UnrevealedSafeBefore(g, r, c + 1) ==
      UnrevealedSafeBefore(g, r, c) +
      (if !g[r][c].isMine && g[r][c].status != Revealed then {(r, c)} else {})
    ensures (r, c) !in UnrevealedSafeBefore(g, r, c)
  {
  }

  lemma UnrevealedRowDone(g: Grid, r: int)
    requires 0 <= r < |g|
    ensures UnrevealedSafeBefore(g, r, |g[r]|) == UnrevealedSafeBefore(g, r + 1, 0)
  {
  }

  lemma UnrevealedEnds(g: Grid)
    ensures UnrevealedSafeBefore(g, 0, 0) == {}
    ensures UnrevealedSafeBefore(g, |g|, 0) == UnrevealedSafe(g)
  {
  }

  /** The loops of the win check: the number of cells that are safe and not
      revealed, flagged ones included. */
  method CountUnrevealedSafe(b: array2<Cell>) returns (count: nat)
    ensures count == |UnrevealedSafe(Snapshot(b))|
  {
    ghost var g := Snapshot(b);
    count := 0;
    UnrevealedEnds(g);
    for r := 0 to b.Length0
      invariant count == |UnrevealedSafeBefore(g, r, 0)|
    {
      for c := 0 to b.Length1
        invariant count == |UnrevealedSafeBefore(g, r, c)|
      {
        UnrevealedStep(g, r, c);
        if !b[r, c].isMine && b[r, c].status != Revealed {
          count := count + 1;
        }
      }
      UnrevealedRowDone(g, r);
    }
  }
}
