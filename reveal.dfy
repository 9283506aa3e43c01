/** What one reveal (App.tsx:85-100) may do to a board, stated over board
    values: which cells may change and how, and the closure the cascade leaves. */
module Reveal {
  import opened Types
  import opened Board

  /** The only change a reveal makes to a cell: a hidden cell becomes revealed. */
  predicate RevealStep(before: Cell, after: Cell)
  {
    after == before || (before.status == Hidden && after == before.(status := Revealed))
  }

  /** g1 has g0's shape, and differs from it only by hidden cells revealed. */
  ghost predicate OnlyReveals(g0: Grid, g1: Grid)
  {
    |g1| == |g0| && (forall i :: 0 <= i < |g0| ==> |g1[i]| == |g0[i]|) &&
    forall i, j :: 0 <= i < |g0| && 0 <= j < |g0[i]| ==> RevealStep(g0[i][j], g1[i][j])
  }

  /** Every safe cell showing 0 that was hidden in g0 and is revealed in g1 has
      no hidden neighbour left in g1: the cascade went on through it. */
  ghost predicate CascadeClosed(g0: Grid, g1: Grid)
    requires OnlyReveals(g0, g1)
  {
    forall i, j ::
      (0 <= i < |g0| && 0 <= j < |g0[i]| &&
       g0[i][j].status == Hidden && g1[i][j].status == Revealed &&
       !g1[i][j].isMine && g1[i][j].neighborMines == 0) ==> Uncovered(g1, i, j)
  }

  /** In-bounds neighbours of (r, c) whose offset comes before (dr, dc) in the
      scan order of App.tsx:93-94 are no longer hidden. */
  ghost predicate NeighboursDone(g: Grid, r: int, c: int, dr: int, dc: int)
  {
    forall i, j ::
      (0 <= i < |g| && 0 <= j < |g[i]| && Near(r, c, i, j) &&
       (i < r + dr || (i == r + dr && j < c + dc))) ==> g[i][j].status != Hidden
  }

  /** The phase after a reveal that took the board from g0 to g1: lost once a
      mine has been revealed, unchanged otherwise (App.tsx:88-90). */
  ghost function AfterReveal(phase: GameStatus, g0: Grid, g1: Grid): (next: GameStatus)
    ensures next == phase || next == Lost
    ensures next == Lost <==> phase == Lost || RevealedMines(g1) != RevealedMines(g0)
  {
    if RevealedMines(g1) == RevealedMines(g0) then phase else Lost
  }

  lemma AfterRevealTrans(phase: GameStatus, g0: Grid, g1: Grid, g2: Grid)
    requires RevealedMines(g0) <= RevealedMines(g1) <= RevealedMines(g2)
    ensures AfterReveal(AfterReveal(phase, g0, g1), g1, g2) == AfterReveal(phase, g0, g2)
  {
  }

  lemma OnlyRevealsTrans(g0: Grid, g1: Grid, g2: Grid)
    requires OnlyReveals(g0, g1) && OnlyReveals(g1, g2)
    ensures OnlyReveals(g0, g2)
  {
  }

  lemma UncoveredStays(g1: Grid, g2: Grid, r: int, c: int)
    requires OnlyReveals(g1, g2) && Uncovered(g1, r, c)
    ensures Uncovered(g2, r, c)
  {
  }

  lemma NeighboursDoneStays(g1: Grid, g2: Grid, r: int, c: int, dr: int, dc: int)
    requires OnlyReveals(g1, g2) && NeighboursDone(g1, r, c, dr, dc)
    ensures NeighboursDone(g2, r, c, dr, dc)
  {
  }

  /** One more step of the scan: the neighbour at offset (dr, dc) is settled
      once it is out of bounds or no longer hidden. */
  lemma NeighboursDoneNext(g1: Grid, g2: Grid, r: int, c: int, dr: int, dc: int)
    requires OnlyReveals(g1, g2) && NeighboursDone(g1, r, c, dr, dc)
    requires 0 <= r + dr < |g2| && 0 <= c + dc < |g2[r + dr]| ==> g2[r + dr][c + dc].status != Hidden
    ensures NeighboursDone(g2, r, c, dr, dc + 1)
  {
    NeighboursDoneStays(g1, g2, r, c, dr, dc);
  }

  lemma CascadeClosedTrans(g0: Grid, g1: Grid, g2: Grid)
    requires OnlyReveals(g0, g1) && OnlyReveals(g1, g2)
    requires CascadeClosed(g0, g1) && CascadeClosed(g1, g2)
    ensures OnlyReveals(g0, g2) && CascadeClosed(g0, g2)
  {
    OnlyRevealsTrans(g0, g1, g2);
    forall i, j | 0 <= i < |g0| && 0 <= j < |g0[i]| &&
      g0[i][j].status == Hidden && g2[i][j].status == Revealed &&
      !g2[i][j].isMine && g2[i][j].neighborMines == 0
      ensures Uncovered(g2, i, j)
    {
      if g1[i][j].status == Revealed {
        UncoveredStays(g1, g2, i, j);
      }
    }
  }

  /** Revealing the hidden cell (r, c) is a reveal step. */
  lemma RevealOne(g: Grid, r: int, c: int)
    requires 0 <= r < |g| && 0 <= c < |g[r]| && g[r][c].status == Hidden
    ensures OnlyReveals(g, With(g, r, c, g[r][c].(status := Revealed)))
    ensures CascadeClosed(g, With(g, r, c, g[r][c].(status := Revealed))) <==>
      (g[r][c].isMine || g[r][c].neighborMines != 0 || Uncovered(With(g, r, c, g[r][c].(status := Revealed)), r, c))
  {
  }

  /** The cascade from (r, c) is closed once every neighbour of (r, c) is uncovered. */
  lemma CascadeFrom(g0: Grid, g1: Grid, g2: Grid, r: int, c: int)
    requires 0 <= r < |g0| && 0 <= c < |g0[r]| && g0[r][c].status == Hidden
    requires g1 == With(g0, r, c, g0[r][c].(status := Revealed))
    requires OnlyReveals(g1, g2) && CascadeClosed(g1, g2) && Uncovered(g2, r, c)
    ensures OnlyReveals(g0, g2) && CascadeClosed(g0, g2)
  {
    RevealOne(g0, r, c);
    OnlyRevealsTrans(g0, g1, g2);
  }

  /** What the flood fill needs from a reveal step at each neighbour: the hidden
      cells only shrink, the mines stay, the revealed mines only grow, and
      correct counts stay correct. */
  lemma OnlyRevealsStep(g0: Grid, g1: Grid, rows: int, cols: int)
    requires OnlyReveals(g0, g1)
    ensures HiddenCells(g1) <= HiddenCells(g0)
    ensures MineCells(g1) == MineCells(g0)
    ensures RevealedMines(g0) <= RevealedMines(g1)
    ensures CountsCorrect(g0, rows, cols) ==> CountsCorrect(g1, rows, cols)
  {
  }

  /** The reveal opened p on its way from g0 to g1: p is on the board, hidden
      in g0 and revealed in g1. */
  ghost predicate Opened(g0: Grid, g1: Grid, p: Pos)
  {
    0 <= p.0 < |g0| && 0 <= p.1 < |g0[p.0]| && p.0 < |g1| && p.1 < |g1[p.0]| &&
    g0[p.0][p.1].status == Hidden && g1[p.0][p.1].status == Revealed
  }

  /** The reveal goes on from p to q in g (App.tsx:92-96): p is a hidden safe
      cell showing 0, and q lies within distance 1 of it. */
  ghost predicate Spreads(g: Grid, p: Pos, q: Pos)
  {
    0 <= p.0 < |g| && 0 <= p.1 < |g[p.0]| &&
    g[p.0][p.1].status == Hidden && !g[p.0][p.1].isMine && g[p.0][p.1].neighborMines == 0 &&
    Near(p.0, p.1, q.0, q.1)
  }

  /** Entry k of `order` came either from an earlier entry, `order[parent[k]]`,
      through which the reveal spreads in g0, or, when `parent[k]` is -1,
      straight from the cell the reveal started at, (r, c). */
  ghost predicate Linked(g0: Grid, r: int, c: int, order: seq<Pos>, parent: seq<int>, k: int)
    requires 0 <= k < |order| && |parent| == |order|
  {
    (parent[k] == -1 && Near(r, c, order[k].0, order[k].1)) ||
    (0 <= parent[k] < k && Spreads(g0, order[parent[k]], order[k]))
  }

  /** `order` lists exactly the cells a reveal opened from g0 to g1, in the
      order it opened them, each one linked to where it came from. */
  ghost predicate RevealOrder(g0: Grid, g1: Grid, r: int, c: int, order: seq<Pos>, parent: seq<int>)
  {
    |parent| == |order| &&
    (forall k :: 0 <= k < |order| ==> Opened(g0, g1, order[k]) && Linked(g0, r, c, order, parent, k)) &&
    (forall i, j :: Opened(g0, g1, (i, j)) ==> (i, j) in order)
  }

  /** Every parent link of `order` after the first entry points back into it. */
  ghost predicate Rooted(parent: seq<int>)
  {
    forall k :: 0 < k < |parent| ==> parent[k] != -1
  }

  /** The parent links of a list appended after n entries: links into the list
      move up by n, and the start link becomes `root`. */
  function Rebase(parent: seq<int>, n: int, root: int): (moved: seq<int>)
    ensures |moved| == |parent|
    ensures forall k :: 0 <= k < |parent| ==> moved[k] == if parent[k] == -1 then root else parent[k] + n
  {
    seq(|parent|, k requires 0 <= k < |parent| => if parent[k] == -1 then root else parent[k] + n)
  }

  /** A reveal that changes nothing opens nothing. */
  lemma OrderNone(g: Grid, r: int, c: int)
    ensures RevealOrder(g, g, r, c, [], [])
  {
  }

  /** Revealing a single hidden cell opens exactly that cell. */
  lemma OrderOne(g: Grid, r: int, c: int)
    requires 0 <= r < |g| && 0 <= c < |g[r]| && g[r][c].status == Hidden
    ensures RevealOrder(g, With(g, r, c, g[r][c].(status := Revealed)), r, c, [(r, c)], [-1])
  {
  }

  /** A cell hidden, safe and showing 0 at a later stage of a reveal was so at
      its start, so the reveal spreads through it there too. */
  lemma SpreadsEarlier(g0: Grid, g: Grid, p: Pos, q: Pos)
    requires OnlyReveals(g0, g) && Spreads(g, p, q)
    ensures Spreads(g0, p, q)
  {
  }

  /** One entry of two lists of opened cells put end to end: the second list
      started at (nr, nc), next to (r, c), on the later board g. */
  lemma LinkAppend(g0: Grid, g: Grid, r: int, c: int, nr: int, nc: int,
                   order: seq<Pos>, parent: seq<int>, o: seq<Pos>, pa: seq<int>, k: int)
    requires OnlyReveals(g0, g) && Near(r, c, nr, nc)
    requires |parent| == |order| && |pa| == |o| && 0 <= k < |order| + |o|
    requires k < |order| ==> Linked(g0, r, c, order, parent, k)
    requires k >= |order| ==> Linked(g, nr, nc, o, pa, k - |order|)
    requires Rooted(pa) && (|o| > 0 ==> o[0] == (nr, nc))
    ensures Linked(g0, r, c, order + o, parent + Rebase(pa, |order|, -1), k)
  {
    var order', parent' := order + o, parent + Rebase(pa, |order|, -1);
    if k < |order| {
      assert order'[k] == order[k] && parent'[k] == parent[k];
      if parent[k] != -1 {
        assert order'[parent'[k]] == order[parent[k]];
      }
    } else {
      var k' := k - |order|;
      assert order'[k] == o[k'];
      if pa[k'] != -1 {
        assert order'[parent'[k]] == o[pa[k']];
        SpreadsEarlier(g0, g, o[pa[k']], o[k']);
      }
    }
  }

  /** The scan from the zero cell (r, c) adds the cells that the reveal at its
      neighbour (nr, nc) opened, which took the board from g to g'. */
  lemma OrderAppend(g0: Grid, g: Grid, g': Grid, r: int, c: int, nr: int, nc: int,
                    order: seq<Pos>, parent: seq<int>, o: seq<Pos>, pa: seq<int>)
    requires OnlyReveals(g0, g) && OnlyReveals(g, g') && Near(r, c, nr, nc)
    requires RevealOrder(g0, g, r, c, order, parent)
    requires RevealOrder(g, g', nr, nc, o, pa) && Rooted(pa) && (|o| > 0 ==> o[0] == (nr, nc))
    ensures RevealOrder(g0, g', r, c, order + o, parent + Rebase(pa, |order|, -1))
  {
    var order', parent' := order + o, parent + Rebase(pa, |order|, -1);
    forall k | 0 <= k < |order'|
      ensures Opened(g0, g', order'[k]) && Linked(g0, r, c, order', parent', k)
    {
      LinkAppend(g0, g, r, c, nr, nc, order, parent, o, pa, k);
      if k < |order| {
        assert order'[k] == order[k];
      } else {
        assert order'[k] == o[k - |order|];
      }
    }
    forall i, j | Opened(g0, g', (i, j))
      ensures (i, j) in order'
    {
      if g[i][j].status == Revealed {
        assert Opened(g0, g, (i, j));
      } else {
        assert Opened(g, g', (i, j));
      }
    }
  }

  /** One entry of the list a reveal at the hidden zero cell (r, c) opens: the
      cell itself first, then the list on of its neighbour scan. */
  lemma LinkCentre(g0: Grid, g1: Grid, r: int, c: int, on: seq<Pos>, pn: seq<int>, k: int)
    requires 0 <= r < |g0| && 0 <= c < |g0[r]| && g0[r][c].status == Hidden
    requires !g0[r][c].isMine && g0[r][c].neighborMines == 0
    requires OnlyReveals(g0, g1) && |pn| == |on| && 0 <= k <= |on|
    requires k > 0 ==> Linked(g1, r, c, on, pn, k - 1)
    ensures Linked(g0, r, c, [(r, c)] + on, [-1] + Rebase(pn, 1, 0), k)
  {
    var order', parent' := [(r, c)] + on, [-1] + Rebase(pn, 1, 0);
    if k > 0 {
      var k' := k - 1;
      assert order'[k] == on[k'];
      if pn[k'] != -1 {
        assert order'[parent'[k]] == on[pn[k']];
        SpreadsEarlier(g0, g1, on[pn[k']], on[k']);
      } else {
        assert order'[parent'[k]] == (r, c);
      }
    }
  }

  /** A reveal at the hidden zero cell (r, c): the cell itself, then the cells
      the scan of its neighbours opened, which took the board from g1 to g2. */
  lemma OrderFromCentre(g0: Grid, g1: Grid, g2: Grid, r: int, c: int, on: seq<Pos>, pn: seq<int>)
    requires 0 <= r < |g0| && 0 <= c < |g0[r]| && g0[r][c].status == Hidden
    requires !g0[r][c].isMine && g0[r][c].neighborMines == 0
    requires g1 == With(g0, r, c, g0[r][c].(status := Revealed))
    requires OnlyReveals(g1, g2) && RevealOrder(g1, g2, r, c, on, pn)
    ensures RevealOrder(g0, g2, r, c, [(r, c)] + on, [-1] + Rebase(pn, 1, 0))
    ensures Rooted([-1] + Rebase(pn, 1, 0))
  {
    RevealOne(g0, r, c);
    var order', parent' := [(r, c)] + on, [-1] + Rebase(pn, 1, 0);
    forall k | 0 <= k < |order'|
      ensures Opened(g0, g2, order'[k]) && Linked(g0, r, c, order', parent', k)
      ensures k > 0 ==> parent'[k] != -1
    {
      LinkCentre(g0, g1, r, c, on, pn, k);
      if k > 0 {
        assert order'[k] == on[k - 1];
        assert Linked(g1, r, c, on, pn, k - 1);
        assert parent'[k] == Rebase(pn, 1, 0)[k - 1];
      }
    }
    CentreComplete(g0, g1, g2, r, c, on, pn);
  }

  lemma CentreComplete(g0: Grid, g1: Grid, g2: Grid, r: int, c: int, on: seq<Pos>, pn: seq<int>)
    requires 0 <= r < |g0| && 0 <= c < |g0[r]|
    requires g1 == With(g0, r, c, g0[r][c].(status := Revealed))
    requires RevealOrder(g1, g2, r, c, on, pn)
    ensures forall i, j :: Opened(g0, g2, (i, j)) ==> (i, j) in [(r, c)] + on
  {
    forall i, j | Opened(g0, g2, (i, j))
      ensures (i, j) in [(r, c)] + on
    {
      if (i, j) != (r, c) {
        assert g1[i][j] == g0[i][j];
        assert Opened(g1, g2, (i, j));
      }
    }
  }

  /** No reveal leaves a zone the reveal cannot spread out of: if the start
      cell lies in `zone` and every cell through which the reveal spreads in g0
      has its neighbours in `zone`, then every opened cell lies in `zone`. With
      CascadeClosed this makes the opened cells exactly the connected area of
      hidden zero cells around the start, together with its border. */
  lemma RevealWithin(g0: Grid, g1: Grid, r: int, c: int, order: seq<Pos>, parent: seq<int>, zone: set<Pos>)
    requires RevealOrder(g0, g1, r, c, order, parent) && Rooted(parent)
    requires |order| > 0 ==> order[0] in zone
    requires forall p, q :: p in zone && Spreads(g0, p, q) && 0 <= q.0 < |g0| && 0 <= q.1 < |g0[q.0]| ==> q in zone
    ensures forall i, j :: Opened(g0, g1, (i, j)) ==> (i, j) in zone
  {
    forall k | 0 <= k < |order|
      ensures order[k] in zone
    {
      OrderWithin(g0, g1, r, c, order, parent, zone, k);
    }
  }

  lemma {:induction false} OrderWithin(g0: Grid, g1: Grid, r: int, c: int, order: seq<Pos>, parent: seq<int>,
                                        zone: set<Pos>, k: int)
    requires RevealOrder(g0, g1, r, c, order, parent) && Rooted(parent)
    requires |order| > 0 ==> order[0] in zone
    requires forall p, q :: p in zone && Spreads(g0, p, q) && 0 <= q.0 < |g0| && 0 <= q.1 < |g0[q.0]| ==> q in zone
    requires 0 <= k < |order|
    ensures order[k] in zone
    decreases k
  {
    if k > 0 {
      assert Linked(g0, r, c, order, parent, k);
      OrderWithin(g0, g1, r, c, order, parent, zone, parent[k]);
    }
  }

  /** The board `0 1 * 1 0` (one row, a mine in the middle): a click on the
      left end opens the two left cells and nothing else, since the cell
      showing 1 stops the cascade. */
  lemma StopsAtNumber(g1: Grid, order: seq<Pos>, parent: seq<int>)
    requires RevealOrder(StripBoard(), g1, 0, 0, order, parent) && Rooted(parent)
    requires |order| > 0 ==> order[0] == (0, 0)
    ensures forall i, j :: Opened(StripBoard(), g1, (i, j)) ==> (i, j) == (0, 0) || (i, j) == (0, 1)
  {
    var g0 := StripBoard();
    var zone := {(0, 0), (0, 1)};
    forall p, q | p in zone && Spreads(g0, p, q) && 0 <= q.0 < |g0| && 0 <= q.1 < |g0[q.0]|
      ensures q in zone
    {
      assert p == (0, 0);
    }
    RevealWithin(g0, g1, 0, 0, order, parent, zone);
  }

  function StripBoard(): (g: Grid)
    ensures |g| == 1 && |g[0]| == 5
  {
    [[Cell(0, 0, false, Hidden, 0), Cell(0, 1, false, Hidden, 1), Cell(0, 2, true, Hidden, 0),
      Cell(0, 3, false, Hidden, 1), Cell(0, 4, false, Hidden, 0)]]
  }

  /** The state of the neighbour scan of App.tsx:93-98 around the zero cell
      (r, c), which the scan entered with board g0 and phase p0, now at offset
      (dr, dc) with board g and phase p; `order` and `parent` record what it
      has opened so far. */
  ghost predicate ScanInvariant(g0: Grid, g: Grid, r: int, c: int, dr: int, dc: int,
                                p0: GameStatus, p: GameStatus, counted: bool,
                                order: seq<Pos>, parent: seq<int>)
  {
    ScanProgress(g0, g, r, c, dr, dc, p0, p, counted) && RevealOrder(g0, g, r, c, order, parent)
  }

  /** The part of the scan state that does not speak of the opened cells. */
  ghost predicate ScanProgress(g0: Grid, g: Grid, r: int, c: int, dr: int, dc: int,
                               p0: GameStatus, p: GameStatus, counted: bool)
  {
    OnlyReveals(g0, g) && CascadeClosed(g0, g) && NeighboursDone(g, r, c, dr, dc) &&
    p == AfterReveal(p0, g0, g) && (counted ==> RevealedMines(g) == RevealedMines(g0))
  }

  lemma ScanStart(g0: Grid, r: int, c: int, p0: GameStatus, counted: bool)
    ensures ScanInvariant(g0, g0, r, c, -1, -1, p0, p0, counted, [], [])
  {
    OrderNone(g0, r, c);
  }

  lemma ScanNextRow(g0: Grid, g: Grid, r: int, c: int, dr: int, p0: GameStatus, p: GameStatus, counted: bool,
                    order: seq<Pos>, parent: seq<int>)
    requires ScanInvariant(g0, g, r, c, dr, 2, p0, p, counted, order, parent)
    ensures ScanInvariant(g0, g, r, c, dr + 1, -1, p0, p, counted, order, parent)
  {
  }

  lemma ScanEnd(g0: Grid, g: Grid, r: int, c: int, p0: GameStatus, p: GameStatus, counted: bool,
                order: seq<Pos>, parent: seq<int>)
    requires ScanInvariant(g0, g, r, c, 2, -1, p0, p, counted, order, parent)
    ensures Uncovered(g, r, c)
  {
  }

  /** The scan passes over an offset that falls outside the board. */
  lemma ScanSkip(g0: Grid, g: Grid, r: int, c: int, dr: int, dc: int, p0: GameStatus, p: GameStatus, counted: bool,
                 order: seq<Pos>, parent: seq<int>)
    requires ScanInvariant(g0, g, r, c, dr, dc, p0, p, counted, order, parent)
    requires !(0 <= r + dr < |g| && 0 <= c + dc < |g[r + dr]|)
    ensures ScanInvariant(g0, g, r, c, dr, dc + 1, p0, p, counted, order, parent)
  {
  }

  /** Before the reveal at an in-bounds neighbour: the hidden cells have not
      grown, and under correct counts around the zero cell (r, c) the neighbour
      is safe and the counts are still correct. */
  lemma ScanBeforeCall(g0: Grid, g: Grid, rows: int, cols: int, r: int, c: int, dr: int, dc: int,
                       p0: GameStatus, p: GameStatus, counted: bool, order: seq<Pos>, parent: seq<int>)
    requires Shaped(g0, rows, cols) && InBounds(rows, cols, r, c) && InBounds(rows, cols, r + dr, c + dc)
    requires -1 <= dr <= 1 && -1 <= dc <= 1
    requires !g0[r][c].isMine && g0[r][c].neighborMines == 0
    requires counted == CountsCorrect(g0, rows, cols)
    requires ScanInvariant(g0, g, r, c, dr, dc, p0, p, counted, order, parent)
    ensures HiddenCells(g) <= HiddenCells(g0)
    ensures counted ==> CountsCorrect(g, rows, cols) && !g[r + dr][c + dc].isMine
  {
    OnlyRevealsStep(g0, g, rows, cols);
    if counted {
      ZeroCountMeansSafe(MineCells(g0), rows, cols, r, c, r + dr, c + dc);
      MineCellsMember(g, r + dr, c + dc);
    }
  }

  /** After the reveal at an in-bounds neighbour, which took the board from g
      to g' and the phase from p to p', left that neighbour not hidden and
      opened the cells `o`. */
  lemma ScanAfterCall(g0: Grid, g: Grid, g': Grid, rows: int, cols: int, r: int, c: int, dr: int, dc: int,
                      p0: GameStatus, p: GameStatus, p': GameStatus, counted: bool,
                      order: seq<Pos>, parent: seq<int>, o: seq<Pos>, pa: seq<int>)
    requires Shaped(g0, rows, cols) && InBounds(rows, cols, r + dr, c + dc) && -1 <= dr <= 1 && -1 <= dc <= 1
    requires ScanInvariant(g0, g, r, c, dr, dc, p0, p, counted, order, parent)
    requires counted ==> CountsCorrect(g, rows, cols) && !g[r + dr][c + dc].isMine
    requires OnlyReveals(g, g') && CascadeClosed(g, g') && p' == AfterReveal(p, g, g')
    requires g'[r + dr][c + dc].status != Hidden
    requires CountsCorrect(g, rows, cols) && !g[r + dr][c + dc].isMine ==> RevealedMines(g') == RevealedMines(g)
    requires RevealOrder(g, g', r + dr, c + dc, o, pa) && Rooted(pa) && (|o| > 0 ==> o[0] == (r + dr, c + dc))
    ensures ScanInvariant(g0, g', r, c, dr, dc + 1, p0, p', counted, order + o, parent + Rebase(pa, |order|, -1))
  {
    ProgressAfterCall(g0, g, g', rows, cols, r, c, dr, dc, p0, p, p', counted);
    OrderAppend(g0, g, g', r, c, r + dr, c + dc, order, parent, o, pa);
  }

  lemma ProgressAfterCall(g0: Grid, g: Grid, g': Grid, rows: int, cols: int, r: int, c: int, dr: int, dc: int,
                          p0: GameStatus, p: GameStatus, p': GameStatus, counted: bool)
    requires Shaped(g0, rows, cols) && InBounds(rows, cols, r + dr, c + dc)
    requires ScanProgress(g0, g, r, c, dr, dc, p0, p, counted)
    requires counted ==> CountsCorrect(g, rows, cols) && !g[r + dr][c + dc].isMine
    requires OnlyReveals(g, g') && CascadeClosed(g, g') && p' == AfterReveal(p, g, g')
    requires g'[r + dr][c + dc].status != Hidden
    requires CountsCorrect(g, rows, cols) && !g[r + dr][c + dc].isMine ==> RevealedMines(g') == RevealedMines(g)
    ensures ScanProgress(g0, g', r, c, dr, dc + 1, p0, p', counted) && OnlyReveals(g0, g) && OnlyReveals(g0, g')
  {
    OnlyRevealsStep(g0, g, rows, cols);
    OnlyRevealsStep(g, g', rows, cols);
    AfterRevealTrans(p0, g0, g, g');
    CascadeClosedTrans(g0, g, g');
    NeighboursDoneNext(g, g', r, c, dr, dc);
  }

  /** A reveal keeps the mines, the flags, the counts and the coordinates, and
      only shrinks the hidden cells and grows the revealed mines. */
  lemma OnlyRevealsKeeps(g0: Grid, g1: Grid)
    requires OnlyReveals(g0, g1)
    ensures MineCells(g1) == MineCells(g0)
    ensures FlaggedCells(g1) == FlaggedCells(g0)
    ensures HiddenCells(g1) <= HiddenCells(g0)
    ensures RevealedMines(g0) <= RevealedMines(g1)
    ensures RevealedCells(g0) <= RevealedCells(g1)
    ensures UnrevealedSafe(g1) <= UnrevealedSafe(g0)
    ensures CoordinatesMatch(g0) ==> CoordinatesMatch(g1)
    ensures forall rows, cols :: CountsCorrect(g0, rows, cols) ==> CountsCorrect(g1, rows, cols)
  {
  }
}
