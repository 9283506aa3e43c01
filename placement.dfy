/** Mine placement (App.tsx:61-83): scatter the mines away from the first
    click, then write every safe cell's neighbour count. */
module Placement {
  import opened Types
  import opened Board
  import opened Scan

  /** The only change the scatter loop makes to a cell: it may turn a safe cell
      into a mine. */
  predicate MineStep(before: Cell, after: Cell)
  {
    after == before || (!before.isMine && after == before.(isMine := true))
  }

  /** g1 is g0 with some safe cells turned into mines. */
  ghost predicate OnlyMinesAdded(g0: Grid, g1: Grid)
  {
    |g1| == |g0| && (forall i :: 0 <= i < |g0| ==> |g1[i]| == |g0[i]|) &&
    forall i, j :: 0 <= i < |g0| && 0 <= j < |g0[i]| ==> MineStep(g0[i][j], g1[i][j])
  }

  lemma OnlyMinesAddedTrans(g0: Grid, g1: Grid, g2: Grid)
    requires OnlyMinesAdded(g0, g1) && OnlyMinesAdded(g1, g2)
    ensures OnlyMinesAdded(g0, g2)
  {
  }

  /** g1 has g0's shape, and every cell keeps its coordinates and its status;
      placement changes only where the mines are and what the cells show. */
  ghost predicate SameLayout(g0: Grid, g1: Grid)
  {
    |g1| == |g0| && (forall i :: 0 <= i < |g0| ==> |g1[i]| == |g0[i]|) &&
    forall i, j :: 0 <= i < |g0| && 0 <= j < |g0[i]| ==>
      g1[i][j].x == g0[i][j].x && g1[i][j].y == g0[i][j].y && g1[i][j].status == g0[i][j].status
  }

  lemma OnlyMinesAddedLayout(g0: Grid, g1: Grid)
    requires OnlyMinesAdded(g0, g1)
    ensures SameLayout(g0, g1)
  {
  }

  lemma SameLayoutTrans(g0: Grid, g1: Grid, g2: Grid)
    requires SameLayout(g0, g1) && SameLayout(g1, g2)
    ensures SameLayout(g0, g2)
  {
  }

  /** Placement leaves the flags, the revealed and the hidden cells where they
      were, and the coordinates right. */
  lemma SameLayoutKeeps(g0: Grid, g1: Grid)
    requires SameLayout(g0, g1)
    ensures FlaggedCells(g1) == FlaggedCells(g0)
    ensures RevealedCells(g1) == RevealedCells(g0)
    ensures HiddenCells(g1) == HiddenCells(g0)
    ensures CoordinatesMatch(g0) ==> CoordinatesMatch(g1)
  {
  }

  /** A cell after the counting pass: a safe cell gets the number of mines
      around it, a mine is left alone. */
  function WithCount(cell: Cell, mines: set<Pos>, rows: int, cols: int, r: int, c: int): Cell
  {
    if cell.isMine then cell else cell.(neighborMines := AdjacentMines(mines, rows, cols, r, c))
  }

  /** While fewer than `count` new mines are down, some cell open to mines is
      still free. */
  lemma RoomLeft(open: set<Pos>, before: set<Pos>, now: set<Pos>, count: nat)
    requires before <= now && now - before <= open
    requires |now - before| < count <= |open - before|
    ensures open - now != {}
  {
    assert open - before == (open - now) + (now - before);
    assert (open - now) * (now - before) == {};
  }

  /** The assignment of App.tsx:67. */
  method PutMine(b: array2<Cell>, r: int, c: int)
    requires InBounds(b.Length0, b.Length1, r, c) && !b[r, c].isMine
    modifies b
    ensures MineCells(Snapshot(b)) == old(MineCells(Snapshot(b))) + {(r, c)}
    ensures OnlyMinesAdded(old(Snapshot(b)), Snapshot(b))
  {
    b[r, c] := b[r, c].(isMine := true);
  }

  lemma GrowMines(before: set<Pos>, now: set<Pos>, open: set<Pos>, p: Pos)
    requires before <= now && now - before <= open && p in open && p !in now
    ensures before <= now + {p} && (now + {p}) - before <= open
    ensures |(now + {p}) - before| == |now - before| + 1
  {
    assert (now + {p}) - before == (now - before) + {p};
  }

  /** The rejection loop of App.tsx:62-69. A draw (r, c) is rejected when it lies
      within distance 1 of (startRow, startCol) or already holds a mine, and a
      rejected draw changes nothing; the model therefore takes each accepted draw
      directly, as a choice among the cells the test lets through. Exactly
      `count` new mines are placed, none of them in the safe zone. */
  method ScatterMines(b: array2<Cell>, startRow: int, startCol: int, count: nat)
    requires count <= |OutsideZone(b.Length0, b.Length1, startRow, startCol) - MineCells(Snapshot(b))|
    modifies b
    ensures old(MineCells(Snapshot(b))) <= MineCells(Snapshot(b))
    ensures |MineCells(Snapshot(b)) - old(MineCells(Snapshot(b)))| == count
    ensures MineCells(Snapshot(b)) - old(MineCells(Snapshot(b))) <= OutsideZone(b.Length0, b.Length1, startRow, startCol)
    ensures OnlyMinesAdded(old(Snapshot(b)), Snapshot(b))
  {
    ghost var before := MineCells(Snapshot(b));
    ghost var open := OutsideZone(b.Length0, b.Length1, startRow, startCol);
    var minesPlaced := 0;
    while minesPlaced < count
      invariant minesPlaced <= count
      invariant before <= MineCells(Snapshot(b))
      invariant MineCells(Snapshot(b)) - before <= open
      invariant |MineCells(Snapshot(b)) - before| == minesPlaced
      invariant OnlyMinesAdded(old(Snapshot(b)), Snapshot(b))
      decreases count - minesPlaced
    {
      RoomLeft(open, before, MineCells(Snapshot(b)), count);
      ghost var p :| p in open - MineCells(Snapshot(b));
      assert InBounds(b.Length0, b.Length1, p.0, p.1);
      MineCellsMember(Snapshot(b), p.0, p.1);
      var r, c :| 0 <= r < b.Length0 && 0 <= c < b.Length1 && !Near(startRow, startCol, r, c) && !b[r, c].isMine;
      MineCellsMember(Snapshot(b), r, c);
      assert (r, c) in open;
      ghost var now := MineCells(Snapshot(b));
      ghost var g := Snapshot(b);
      PutMine(b, r, c);
      GrowMines(before, now, open, (r, c));
      OnlyMinesAddedTrans(old(Snapshot(b)), g, Snapshot(b));
      minesPlaced := minesPlaced + 1;
    }
  }

  /** The counting pass of App.tsx:70-82: every safe cell gets the number of
      mines around it; mines and every other field are left alone. */
  method ComputeNeighborCounts(b: array2<Cell>)
    modifies b
    ensures MineCells(Snapshot(b)) == old(MineCells(Snapshot(b)))
    ensures forall r, c :: 0 <= r < b.Length0 && 0 <= c < b.Length1 ==>
      b[r, c] == WithCount(old(b[r, c]), old(MineCells(Snapshot(b))), b.Length0, b.Length1, r, c)
    ensures CountsCorrect(Snapshot(b), b.Length0, b.Length1)
    ensures SameLayout(old(Snapshot(b)), Snapshot(b))
  {
    ghost var mines := MineCells(Snapshot(b));
    for r := 0 to b.Length0
      invariant forall i, j :: 0 <= i < b.Length0 && 0 <= j < b.Length1 ==>
        b[i, j] == if i < r then WithCount(old(b[i, j]), mines, b.Length0, b.Length1, i, j) else old(b[i, j])
    {
      for c := 0 to b.Length1
        invariant forall i, j :: 0 <= i < b.Length0 && 0 <= j < b.Length1 ==>
          b[i, j] == if i < r || (i == r && j < c) then WithCount(old(b[i, j]), mines, b.Length0, b.Length1, i, j) else old(b[i, j])
      {
        if b[r, c].isMine {
          continue;
        }
        assert MineCells(Snapshot(b)) == mines;
        var count := CountAdjacentMines(b, r, c);
        b[r, c] := b[r, c].(neighborMines := count);
      }
    }
    assert MineCells(Snapshot(b)) == mines;
  }
}
