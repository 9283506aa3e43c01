/** The game engine of App.tsx: the board, the phase and the flag counter as
    the fields of one object, and the operations the two gestures drive. */
module Minesweeper {
  import opened Types
  import opened Constants
  import opened Board
  import opened Scan
  import opened Placement
  import opened Reveal
  import opened Rules

  /** The assignment of App.tsx:87: the hidden cell (r, c) becomes revealed. */
  method Uncover(b: array2<Cell>, r: int, c: int)
    requires InBounds(b.Length0, b.Length1, r, c) && b[r, c].status == Hidden
    modifies b
    ensures Snapshot(b) == With(old(Snapshot(b)), r, c, old(b[r, c]).(status := Revealed))
    ensures HiddenCells(Snapshot(b)) == old(HiddenCells(Snapshot(b))) - {(r, c)}
    ensures b[r, c].isMine ==> RevealedMines(Snapshot(b)) == old(RevealedMines(Snapshot(b))) + {(r, c)}
    ensures !b[r, c].isMine ==> RevealedMines(Snapshot(b)) == old(RevealedMines(Snapshot(b)))
  {
    StatusEdit(Snapshot(b), r, c, Revealed);
    SetStatus(b, r, c, Revealed);
  }

  /** The deep copy of App.tsx:114 and 129: a fresh array with the same cells. */
  method CopyBoard(a: array2<Cell>) returns (b: array2<Cell>)
    ensures fresh(b) && b.Length0 == a.Length0 && b.Length1 == a.Length1
    ensures Snapshot(b) == Snapshot(a)
  {
    b := new Cell[a.Length0, a.Length1]((i, j) reads a requires 0 <= i < a.Length0 && 0 <= j < a.Length1 => a[i, j]);
    assert forall i | 0 <= i < a.Length0 :: Snapshot(b)[i] == Snapshot(a)[i];
  }

  /** The status write of App.tsx:132 or 135 on the covered cell (r, c). */
  method ToggleCell(b: array2<Cell>, r: int, c: int)
    requires InBounds(b.Length0, b.Length1, r, c) && b[r, c].status != Revealed
    modifies b
    ensures Snapshot(b) == Toggled(old(Snapshot(b)), r, c)
  {
    SetStatus(b, r, c, ToggleFlag(b[r, c].status));
  }

  class Game {
    var difficulty: Difficulty
    var board: array2<Cell>
    var phase: GameStatus
    var flagsCount: int

    /** The settings of the current difficulty (App.tsx:19): one of the three
        presets, each a non-empty board with room for its mines outside the
        3 × 3 block around a first click. */
    function Settings(): (s: DifficultySettings)
      reads this`difficulty
      ensures s == DifficultySettings(9, 9, 10) || s == DifficultySettings(16, 16, 40) ||
        s == DifficultySettings(16, 30, 99)
      ensures 0 < s.rows && 0 < s.cols && s.mines + 9 <= s.rows * s.cols
    {
      DifficultyConfig(difficulty)
    }

    /** The invariant the game keeps between gestures. */
    ghost predicate Valid()
      reads this, board
    {
      board.Length0 == Settings().rows && board.Length1 == Settings().cols &&
      Consistent(Snapshot(board), Settings(), phase, flagsCount)
    }

    /** The component's initial state (App.tsx:9-13) followed by the mount
        effect that builds the first board (App.tsx:44-46). */
    constructor ()
      ensures Valid() && difficulty == Beginner && phase == Ready && flagsCount == 0
      ensures Snapshot(board) == FreshGrid(Settings().rows, Settings().cols)
    {
      difficulty := Beginner;
      board := new Cell[0, 0];
      phase := Ready;
      flagsCount := 0;
      new;
      InitializeBoard();
    }

    /** initializeBoard (App.tsx:21-42): a fresh board of the current size, every
        cell safe, hidden, showing 0 and carrying its own position; phase ready,
        no flags. */
    method InitializeBoard()
      modifies this
      ensures difficulty == old(difficulty)
      ensures fresh(board) && Snapshot(board) == FreshGrid(Settings().rows, Settings().cols)
      ensures phase == Ready && flagsCount == 0
      ensures Valid()
    {
      var rows, cols := Settings().rows, Settings().cols;
      var nb := new Cell[rows, cols];
      for x := 0 to rows
        modifies nb
        invariant forall i, j :: 0 <= i < x && 0 <= j < cols ==> nb[i, j] == Cell(i, j, false, Hidden, 0)
      {
        for y := 0 to cols
          modifies nb
          invariant forall i, j :: 0 <= i < rows && 0 <= j < cols && (i < x || (i == x && j < y)) ==>
            nb[i, j] == Cell(i, j, false, Hidden, 0)
        {
          nb[x, y] := Cell(x, y, false, Hidden, 0);
        }
      }
      board := nb;
      phase := Ready;
      flagsCount := 0;
      assert forall i | 0 <= i < rows :: Snapshot(board)[i] == FreshGrid(rows, cols)[i];
      FreshGridConsistent(Settings());
    }

    /** The difficulty buttons (App.tsx:246). A new difficulty changes the
        settings, and the effect of App.tsx:44-46 rebuilds the board; choosing the
        current one leaves the settings, and so everything, as it is. */
    method SelectDifficulty(d: Difficulty)
      requires Valid()
      modifies this
      ensures Valid() && difficulty == d
      ensures d == old(difficulty) ==> unchanged(this)
      ensures d != old(difficulty) ==>
        fresh(board) && Snapshot(board) == FreshGrid(Settings().rows, Settings().cols) &&
        phase == Ready && flagsCount == 0
    {
      if d != difficulty {
        difficulty := d;
        InitializeBoard();
      }
    }

    /** placeMines (App.tsx:61-83) on the working copy `b` of a board without
        mines: exactly the preset's number of mines, none within distance 1 of
        the clicked cell, and every safe cell showing its number. */
    method PlaceMines(startRow: int, startCol: int, b: array2<Cell>)
      requires b.Length0 == Settings().rows && b.Length1 == Settings().cols
      requires MineCells(Snapshot(b)) == {}
      modifies b
      ensures Armed(old(Snapshot(b)), Snapshot(b), Settings(), startRow, startCol)
    {
      PlacementFeasible(Settings(), startRow, startCol);
      ghost var g0 := Snapshot(b);
      ScatterMines(b, startRow, startCol, Settings().mines);
      ghost var g1 := Snapshot(b);
      OnlyMinesAddedLayout(g0, g1);
      ComputeNeighborCounts(b);
      SameLayoutTrans(g0, g1, Snapshot(b));
    }

    /** checkWin (App.tsx:102-110): the phase becomes won exactly when no safe
        cell is left unrevealed, and is left alone otherwise. */
    method CheckWin(b: array2<Cell>)
      modifies this`phase
      ensures phase == if UnrevealedSafe(Snapshot(b)) == {} then Won else old(phase)
    {
      var unrevealedSafeCells := CountUnrevealedSafe(b);
      if unrevealedSafeCells == 0 {
        phase := Won;
      }
    }

    /** The first half of handleCellClick on a ready or playing game
        (App.tsx:114-118): the deep copy of the board, with the mines placed
        around (r, c) when this is the first click, and the phase now playing.
        `armed` is the copy's contents. */
    method ArmedCopy(r: int, c: int) returns (newBoard: array2<Cell>, ghost armed: Grid)
      requires Valid() && InBounds(Settings().rows, Settings().cols, r, c)
      requires phase == Ready || phase == Playing
      modifies this`phase
      ensures phase == Playing && fresh(newBoard) && Snapshot(newBoard) == armed
      ensures newBoard.Length0 == Settings().rows && newBoard.Length1 == Settings().cols
      ensures Consistent(armed, Settings(), Playing, flagsCount)
      ensures old(phase) == Playing ==> armed == Snapshot(board)
      ensures old(phase) == Ready ==> Armed(Snapshot(board), armed, Settings(), r, c)
      ensures old(phase) == Ready ==> !armed[r][c].isMine && armed[r][c].neighborMines == 0
    {
      newBoard := CopyBoard(board);
      if phase == Ready {
        assert MineCells(Snapshot(newBoard)) == {};
        PlaceMines(r, c, newBoard);
        ArmedConsistent(Snapshot(board), Snapshot(newBoard), Settings(), flagsCount, r, c);
        phase := Playing;
      }
      armed := Snapshot(newBoard);
    }

    /** handleCellClick (App.tsx:112-124) on the in-bounds cell (r, c). A won or
        lost game ignores the click. Otherwise the handler works on a deep copy
        (see ArmedCopy). A flagged target ends the click there, without
        committing the copy; on a first click this leaves the old, mine-free
        board in phase playing. Any other target is revealed, the copy becomes
        the board and checkWin runs. `armed` is the copy as it was just before
        the reveal. */
    method HandleCellClick(r: int, c: int) returns (ghost armed: Grid, ghost order: seq<Pos>, ghost parent: seq<int>)
      requires Valid() && InBounds(Settings().rows, Settings().cols, r, c)
      modifies this
      ensures Valid()
      ensures difficulty == old(difficulty) && flagsCount == old(flagsCount)
      ensures Shaped(armed, Settings().rows, Settings().cols)
      ensures old(phase) == Won || old(phase) == Lost ==> unchanged(this)
      ensures old(phase) == Playing ==> armed == old(Snapshot(board))
      ensures old(phase) == Ready ==> Armed(old(Snapshot(board)), armed, Settings(), r, c)
      ensures old(phase) == Ready ==> !armed[r][c].isMine && armed[r][c].neighborMines == 0
      ensures (old(phase) == Ready || old(phase) == Playing) && armed[r][c].status == Flagged ==>
        board == old(board) && phase == Playing
      ensures (old(phase) == Ready || old(phase) == Playing) && armed[r][c].status != Flagged ==>
        OnlyReveals(armed, Snapshot(board)) && CascadeClosed(armed, Snapshot(board)) &&
        Snapshot(board)[r][c].status == Revealed &&
        phase == if UnrevealedSafe(Snapshot(board)) == {} then Won else AfterReveal(Playing, armed, Snapshot(board))
      ensures (old(phase) == Ready || old(phase) == Playing) && armed[r][c].status != Flagged ==>
        RevealOrder(armed, Snapshot(board), r, c, order, parent) && Rooted(parent) &&
        (|order| > 0 <==> armed[r][c].status == Hidden) && (|order| > 0 ==> order[0] == (r, c))
      ensures (old(phase) == Ready || old(phase) == Playing) && armed[r][c].status == Revealed ==>
        Snapshot(board) == armed && phase == Playing
    {
      armed, order, parent := Snapshot(board), [], [];
      if phase == Won || phase == Lost {
        return;
      }
      ghost var first := phase == Ready;
      var newBoard;
      newBoard, armed := ArmedCopy(r, c);
      if newBoard[r, c].status == Flagged {
        if first {
          ReadyToPlaying(Snapshot(board), Settings(), flagsCount, r, c);
        }
        return;
      }
      order, parent := RevealAndCheck(r, c, newBoard, armed);
      ghost var g, p, fc := Snapshot(newBoard), phase, flagsCount;
      Commit(newBoard, g, p, fc);
    }

    /** The second half of handleCellClick (App.tsx:120-123) on the copy `b`
        of contents `armed`, a consistent playing board whose cell (r, c) is
        not flagged: the reveal from (r, c), then checkWin. The outcome is a
        consistent board for the phase that results. */
    method RevealAndCheck(r: int, c: int, b: array2<Cell>, ghost armed: Grid)
      returns (ghost order: seq<Pos>, ghost parent: seq<int>)
      requires InBounds(Settings().rows, Settings().cols, r, c)
      requires b.Length0 == Settings().rows && b.Length1 == Settings().cols
      requires Snapshot(b) == armed && Consistent(armed, Settings(), Playing, flagsCount)
      requires phase == Playing && b[r, c].status != Flagged
      modifies b, this`phase
      ensures OnlyReveals(armed, Snapshot(b)) && CascadeClosed(armed, Snapshot(b))
      ensures Snapshot(b)[r][c].status == Revealed
      ensures phase == if UnrevealedSafe(Snapshot(b)) == {} then Won else AfterReveal(Playing, armed, Snapshot(b))
      ensures Consistent(Snapshot(b), Settings(), phase, flagsCount)
      ensures RevealOrder(armed, Snapshot(b), r, c, order, parent) && Rooted(parent)
      ensures |order| > 0 <==> armed[r][c].status == Hidden
      ensures |order| > 0 ==> order[0] == (r, c)
      ensures armed[r][c].status == Revealed ==> Snapshot(b) == armed && phase == Playing
    {
      order, parent := RevealCell(r, c, b);
      ghost var revealed := Snapshot(b);
      CheckWin(b);
      ClickKeeps(armed, revealed, Settings(), flagsCount, r, c, phase);
    }

    /** handleContextMenu (App.tsx:126-140) on the in-bounds cell (r, c). Only a
        ready or playing game reacts, and only to a covered cell: a hidden cell
        gets a flag and the counter goes up, a flagged one loses it and the
        counter goes down; the copy is then committed. */
    method HandleContextMenu(r: int, c: int)
      requires Valid() && InBounds(Settings().rows, Settings().cols, r, c)
      modifies this
      ensures Valid()
      ensures difficulty == old(difficulty) && phase == old(phase)
      ensures (old(phase) != Ready && old(phase) != Playing) || old(board[r, c]).status == Revealed ==>
        unchanged(this)
      ensures (old(phase) == Ready || old(phase) == Playing) && old(board[r, c]).status != Revealed ==>
        Snapshot(board) == Toggled(old(Snapshot(board)), r, c) &&
        flagsCount == old(flagsCount) + (if old(board[r, c]).status == Hidden then 1 else -1)
    {
      if (phase != Playing && phase != Ready) || board[r, c].status == Revealed {
        return;
      }
      var delta := if board[r, c].status == Hidden then 1 else -1;
      var newBoard := FlaggedCopy(r, c);
      ghost var g, fc := Snapshot(newBoard), flagsCount + delta;
      flagsCount := flagsCount + delta;
      Commit(newBoard, g, phase, fc);
    }

    /** The deep copy of App.tsx:129 with the flag at the covered cell (r, c)
        toggled (App.tsx:131-137). The game itself is not changed. */
    method FlaggedCopy(r: int, c: int) returns (newBoard: array2<Cell>)
      requires Valid() && InBounds(Settings().rows, Settings().cols, r, c)
      requires board[r, c].status != Revealed
      ensures fresh(newBoard) && newBoard.Length0 == board.Length0 && newBoard.Length1 == board.Length1
      ensures Snapshot(newBoard) == Toggled(Snapshot(board), r, c)
      ensures Consistent(Snapshot(newBoard), Settings(), phase,
                         flagsCount + if board[r, c].status == Hidden then 1 else -1)
    {
      newBoard := CopyBoard(board);
      ghost var g := Snapshot(newBoard);
      ToggleKeeps(g, Settings(), phase, flagsCount, r, c);
      ToggleCell(newBoard, r, c);
    }

    /** The setBoard of App.tsx:121 and 138: the working copy becomes the board. */
    method Commit(newBoard: array2<Cell>, ghost g: Grid, ghost p: GameStatus, ghost fc: int)
      requires newBoard.Length0 == Settings().rows && newBoard.Length1 == Settings().cols
      requires Snapshot(newBoard) == g && p == phase && fc == flagsCount
      requires Consistent(g, DifficultyConfig(difficulty), p, fc)
      modifies this`board
      ensures board == newBoard && Valid()
    {
      board := newBoard;
    }

    /** The flood fill of App.tsx:85-100 on the working copy `b`. A cell that is
        not hidden is left alone. Otherwise it is revealed; a mine sets the phase
        to lost and stops there; a safe cell showing 0 goes on into each in-bounds
        neighbour. Every call that does anything first removes a cell from the
        hidden ones, which is why the recursion ends. */
    method RevealCell(r: int, c: int, b: array2<Cell>) returns (ghost order: seq<Pos>, ghost parent: seq<int>)
      requires InBounds(b.Length0, b.Length1, r, c)
      requires b.Length0 == Settings().rows && b.Length1 == Settings().cols
      modifies b, this`phase
      decreases HiddenCells(Snapshot(b)), 2
      ensures OnlyReveals(old(Snapshot(b)), Snapshot(b))
      ensures CascadeClosed(old(Snapshot(b)), Snapshot(b))
      ensures phase == AfterReveal(old(phase), old(Snapshot(b)), Snapshot(b))
      ensures old(b[r, c]).status != Hidden ==> Snapshot(b) == old(Snapshot(b))
      ensures old(b[r, c]).status == Hidden ==> b[r, c].status == Revealed
      ensures b[r, c].status != Hidden
      ensures old(b[r, c]).status == Hidden && (old(b[r, c]).isMine || old(b[r, c]).neighborMines != 0) ==>
        Snapshot(b) == With(old(Snapshot(b)), r, c, old(b[r, c]).(status := Revealed))
      ensures old(b[r, c]).status == Hidden && old(b[r, c]).isMine ==> phase == Lost
      ensures old(CountsCorrect(Snapshot(b), b.Length0, b.Length1)) && !old(b[r, c]).isMine ==>
        RevealedMines(Snapshot(b)) == old(RevealedMines(Snapshot(b)))
      ensures RevealOrder(old(Snapshot(b)), Snapshot(b), r, c, order, parent) && Rooted(parent)
      ensures |order| > 0 <==> old(b[r, c]).status == Hidden
      ensures |order| > 0 ==> order[0] == (r, c)
    {
      if b[r, c].status != Hidden {
        order, parent := [], [];
        OrderNone(Snapshot(b), r, c);
        return;
      }
      ghost var g0: Grid := Snapshot(b);
      Uncover(b, r, c);
      ghost var g1: Grid := Snapshot(b);
      RevealOne(g0, r, c);
      OnlyRevealsKeeps(g0, g1);
      if b[r, c].isMine {
        phase := Lost;
        order, parent := [(r, c)], [-1];
        OrderOne(g0, r, c);
        return;
      }
      if b[r, c].neighborMines == 0 {
        ghost var on, pn := RevealNeighbours(r, c, b, HiddenCells(g0));
        CascadeFrom(g0, g1, Snapshot(b), r, c);
        OrderFromCentre(g0, g1, Snapshot(b), r, c, on, pn);
        order, parent := [(r, c)] + on, [-1] + Rebase(pn, 1, 0);
      } else {
        order, parent := [(r, c)], [-1];
        OrderOne(g0, r, c);
      }
    }

    /** The neighbour loop of App.tsx:92-99, run for a revealed safe cell that
        shows 0: it reveals from each in-bounds neighbour in turn, and leaves no
        neighbour hidden. `bound` is a ghost measure for the mutual recursion. */
    method RevealNeighbours(r: int, c: int, b: array2<Cell>, ghost bound: set<Pos>)
      returns (ghost order: seq<Pos>, ghost parent: seq<int>)
      requires InBounds(b.Length0, b.Length1, r, c)
      requires b.Length0 == Settings().rows && b.Length1 == Settings().cols
      requires b[r, c].status == Revealed && !b[r, c].isMine && b[r, c].neighborMines == 0
      requires HiddenCells(Snapshot(b)) < bound
      modifies b, this`phase
      decreases bound, 1
      ensures OnlyReveals(old(Snapshot(b)), Snapshot(b))
      ensures CascadeClosed(old(Snapshot(b)), Snapshot(b))
      ensures Uncovered(Snapshot(b), r, c)
      ensures phase == AfterReveal(old(phase), old(Snapshot(b)), Snapshot(b))
      ensures old(CountsCorrect(Snapshot(b), b.Length0, b.Length1)) ==>
        RevealedMines(Snapshot(b)) == old(RevealedMines(Snapshot(b)))
      ensures RevealOrder(old(Snapshot(b)), Snapshot(b), r, c, order, parent)
    {
      ghost var g0: Grid := Snapshot(b);
      ghost var counted := CountsCorrect(g0, b.Length0, b.Length1);
      order, parent := [], [];
      ScanStart(g0, r, c, phase, counted);
      for dr := -1 to 2
        invariant ScanInvariant(g0, Snapshot(b), r, c, dr, -1, old(phase), phase, counted, order, parent)
      {
        for dc := -1 to 2
          invariant ScanInvariant(g0, Snapshot(b), r, c, dr, dc, old(phase), phase, counted, order, parent)
        {
          order, parent := RevealOffset(r, c, dr, dc, b, bound, g0, old(phase), counted, order, parent);
        }
        ScanNextRow(g0, Snapshot(b), r, c, dr, old(phase), phase, counted, order, parent);
      }
      ScanEnd(g0, Snapshot(b), r, c, old(phase), phase, counted, order, parent);
    }

    /** The body of the neighbour loop (App.tsx:95-96) at offset (dr, dc): the
        reveal goes on from that neighbour when it is on the board. The ghost
        parameters are the board and phase the scan started from. */
    method RevealOffset(r: int, c: int, dr: int, dc: int, b: array2<Cell>, ghost bound: set<Pos>,
                        ghost g0: Grid, ghost p0: GameStatus, ghost counted: bool,
                        ghost order0: seq<Pos>, ghost parent0: seq<int>)
      returns (ghost order: seq<Pos>, ghost parent: seq<int>)
      requires InBounds(b.Length0, b.Length1, r, c) && -1 <= dr <= 1 && -1 <= dc <= 1
      requires b.Length0 == Settings().rows && b.Length1 == Settings().cols
      requires Shaped(g0, b.Length0, b.Length1) && !g0[r][c].isMine && g0[r][c].neighborMines == 0
      requires counted == CountsCorrect(g0, b.Length0, b.Length1)
      requires HiddenCells(g0) < bound
      requires ScanInvariant(g0, Snapshot(b), r, c, dr, dc, p0, phase, counted, order0, parent0)
      modifies b, this`phase
      decreases bound, 0
      ensures ScanInvariant(g0, Snapshot(b), r, c, dr, dc + 1, p0, phase, counted, order, parent)
    {
      var nr, nc := r + dr, c + dc;
      if nr >= 0 && nr < Settings().rows && nc >= 0 && nc < Settings().cols {
        ghost var g: Grid := Snapshot(b);
        ghost var p := phase;
        ScanBeforeCall(g0, g, b.Length0, b.Length1, r, c, dr, dc, p0, p, counted, order0, parent0);
        ghost var o, pa := RevealCell(nr, nc, b);
        ScanAfterCall(g0, g, Snapshot(b), b.Length0, b.Length1, r, c, dr, dc, p0, p, phase, counted,
                      order0, parent0, o, pa);
        order, parent := order0 + o, parent0 + Rebase(pa, |order0|, -1);
      } else {
        ScanSkip(g0, Snapshot(b), r, c, dr, dc, p0, phase, counted, order0, parent0);
        order, parent := order0, parent0;
      }
    }
  }
}
