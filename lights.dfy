/** The Lights Out grid as a value: an nrows x ncols sequence of rows of
    booleans (true = lit), the move that toggles a cell and its four
    orthogonal neighbours, and the "all lights off" win condition. */
module Lights {

  type Grid = seq<seq<bool>>

  /** g has exactly nrows rows, each of exactly ncols cells. */
  predicate IsRect(g: Grid, nrows: nat, ncols: nat)
  {
    |g| == nrows && forall i | 0 <= i < |g| :: |g[i]| == ncols
  }

  /** The bounds guard of flipCell: (y, x) names a cell of the board. */
  predicate OnBoard(nrows: int, ncols: int, y: int, x: int)
  {
    x >= 0 && x < ncols && y >= 0 && y < nrows
  }

  /** Two rectangular grids with the same cells are the same grid. */
  lemma {:induction false} GridExt(a: Grid, b: Grid, nrows: nat, ncols: nat)
    requires IsRect(a, nrows, ncols) && IsRect(b, nrows, ncols)
    requires forall i, j | 0 <= i < nrows && 0 <= j < ncols :: a[i][j] == b[i][j]
    ensures a == b
  {
    forall i | 0 <= i < nrows
      ensures a[i] == b[i]
    {
      assert |a[i]| == |b[i]| == ncols;
      forall j | 0 <= j < ncols
        ensures a[i][j] == b[i][j]
      {
      }
    }
  }

  // ---------------------------------------------------------------- moves

  /** flipCell(y, x): negate cell (y, x) when it is on the board, and
      otherwise leave the grid as it is (no error). */
  function FlipCell(g: Grid, nrows: nat, ncols: nat, y: int, x: int): (r: Grid)
    requires IsRect(g, nrows, ncols)
    ensures IsRect(r, nrows, ncols)
    ensures forall i, j | 0 <= i < nrows && 0 <= j < ncols ::
              r[i][j] == (g[i][j] != (i == y && j == x))
    ensures !OnBoard(nrows, ncols, y, x) ==> r == g
  {
    if OnBoard(nrows, ncols, y, x) then g[y := g[y][x := !g[y][x]]] else g
  }

  /** The plus-shaped neighbourhood of (y, x): the cell itself and the
      cells left, right, above and below it, whether on the board or not. */
  function Plus(y: int, x: int): set<(int, int)>
  {
    {(y, x), (y, x - 1), (y, x + 1), (y - 1, x), (y + 1, x)}
  }

  /** The cells a move at (y, x) toggles: those of Plus(y, x) on the board. */
  function Toggled(nrows: nat, ncols: nat, y: int, x: int): set<(int, int)>
  {
    set p | p in Plus(y, x) && OnBoard(nrows, ncols, p.0, p.1)
  }

  /** flipCellsAround's five flipCell calls, in the source's order. Every
      on-board cell of Plus(y, x) is negated once, every other cell keeps
      its value. The clicked cell itself need not be on the board: its
      on-board neighbours are still toggled. */
  function FlipAround(g: Grid, nrows: nat, ncols: nat, y: int, x: int): (r: Grid)
    requires IsRect(g, nrows, ncols)
    ensures IsRect(r, nrows, ncols)
    ensures forall i, j | 0 <= i < nrows && 0 <= j < ncols ::
              r[i][j] == (g[i][j] != ((i, j) in Plus(y, x)))
  {
    var g1 := FlipCell(g, nrows, ncols, y, x);
    var g2 := FlipCell(g1, nrows, ncols, y, x - 1);
    var g3 := FlipCell(g2, nrows, ncols, y, x + 1);
    var g4 := FlipCell(g3, nrows, ncols, y - 1, x);
    FlipCell(g4, nrows, ncols, y + 1, x)
  }

  /** A move is its own inverse: making it twice restores the grid. */
  lemma {:induction false} FlipAroundTwice(g: Grid, nrows: nat, ncols: nat, y: int, x: int)
    requires IsRect(g, nrows, ncols)
    ensures FlipAround(FlipAround(g, nrows, ncols, y, x), nrows, ncols, y, x) == g
  {
    var h := FlipAround(g, nrows, ncols, y, x);
    GridExt(FlipAround(h, nrows, ncols, y, x), g, nrows, ncols);
  }

  /** The cells where two grids of the same shape differ. */
  function Changed(g: Grid, h: Grid, nrows: nat, ncols: nat): set<(int, int)>
    requires IsRect(g, nrows, ncols) && IsRect(h, nrows, ncols)
  {
    set i, j | 0 <= i < nrows && 0 <= j < ncols && g[i][j] != h[i][j] :: (i, j)
  }

  /** A move changes exactly the on-board cells of its neighbourhood, and
      nothing else. */
  lemma {:induction false} FlipAroundChanges(g: Grid, nrows: nat, ncols: nat, y: int, x: int)
    requires IsRect(g, nrows, ncols)
    ensures Changed(g, FlipAround(g, nrows, ncols, y, x), nrows, ncols) == Toggled(nrows, ncols, y, x)
  {
  }

  /** s with p added when b holds. */
  function AddIf(s: set<(int, int)>, b: bool, p: (int, int)): (r: set<(int, int)>)
    ensures p !in s ==> |r| == |s| + (if b then 1 else 0)
  {
    if b then s + {p} else s
  }

  /** How many cells a move on the board toggles: the clicked cell plus
      each neighbour that is on the board. */
  lemma {:induction false} ToggledCount(nrows: nat, ncols: nat, y: int, x: int)
    requires OnBoard(nrows, ncols, y, x)
    ensures |Toggled(nrows, ncols, y, x)| ==
              1 + (if x > 0 then 1 else 0) + (if x + 1 < ncols then 1 else 0)
                + (if y > 0 then 1 else 0) + (if y + 1 < nrows then 1 else 0)
  {
    var s1 := AddIf({(y, x)}, x > 0, (y, x - 1));
    var s2 := AddIf(s1, x + 1 < ncols, (y, x + 1));
    var s3 := AddIf(s2, y > 0, (y - 1, x));
    var s4 := AddIf(s3, y + 1 < nrows, (y + 1, x));
    assert s1 <= {(y, x), (y, x - 1)};
    assert s2 <= {(y, x), (y, x - 1), (y, x + 1)};
    assert s3 <= {(y, x), (y, x - 1), (y, x + 1), (y - 1, x)};
    var t := Toggled(nrows, ncols, y, x);
    assert t == s4 by {
      forall p | p in t ensures p in s4 {
      }
      forall p | p in s4 ensures p in t {
      }
    }
  }

  /** The shapes of a move: 5 cells in the interior, 4 on an edge, 3 in a
      corner (on a board of at least 2 x 2). */
  lemma {:induction false} ToggledShapes(nrows: nat, ncols: nat, y: int, x: int)
    requires OnBoard(nrows, ncols, y, x) && nrows >= 2 && ncols >= 2
    ensures 0 < y < nrows - 1 && 0 < x < ncols - 1 ==> |Toggled(nrows, ncols, y, x)| == 5
    ensures (y == 0 || y == nrows - 1) != (x == 0 || x == ncols - 1) ==>
              |Toggled(nrows, ncols, y, x)| == 4
    ensures (y == 0 || y == nrows - 1) && (x == 0 || x == ncols - 1) ==>
              |Toggled(nrows, ncols, y, x)| == 3
  {
    ToggledCount(nrows, ncols, y, x);
  }

  // ------------------------------------------------------- win condition

  /** The documented meaning of hasWon: every cell of every row is off. */
  predicate AllOff(g: Grid)
  {
    forall i, j | 0 <= i < |g| && 0 <= j < |g[i]| :: !g[i][j]
  }

  /** Array.prototype.every, checked left to right: true exactly when p
      holds of every element. */
  function Every<T>(s: seq<T>, p: T -> bool): (r: bool)
    ensures r <==> forall k | 0 <= k < |s| :: p(s[k])
  {
    if |s| == 0 then true
    else
      assert forall k | 1 <= k < |s| :: s[k] == s[1..][k - 1];
      p(s[0]) && Every(s[1..], p)
  }

  /** The win check as the source writes it,
      board.every(row => row.every(cell => !cell)): true exactly when every
      cell of every row is off. */
  function HasWon(g: Grid): (r: bool)
    ensures r <==> AllOff(g)
  {
    var rowOff := (row: seq<bool>) => Every(row, (cell: bool) => !cell);
    assert forall i | 0 <= i < |g| :: rowOff(g[i]) <==> forall j | 0 <= j < |g[i]| :: !g[i][j];
    Every(g, rowOff)
  }

  /** flipCellsAround itself has no guard on hasWon: a move on the board
      of an all-off grid lights at least the clicked cell again. */
  lemma {:induction false} MoveAfterWinLights(g: Grid, nrows: nat, ncols: nat, y: int, x: int)
    requires IsRect(g, nrows, ncols) && AllOff(g) && OnBoard(nrows, ncols, y, x)
    ensures !AllOff(FlipAround(g, nrows, ncols, y, x))
  {
  }

  // ------------------------------------------------------- initial grid

  lemma MulStep(n: nat, m: nat)
    requires n > 0
    ensures (n - 1) * m + m == n * m
  {
  }

  /** createBoard with its random draws injected: samples holds, in the
      order the nested loops draw them, whether each draw fell below
      chanceLightStartsOn. Rows are built and pushed one after another. */
  function InitialBoard(nrows: nat, ncols: nat, samples: seq<bool>): (g: Grid)
    requires |samples| == nrows * ncols
    ensures IsRect(g, nrows, ncols)
    decreases nrows
  {
    if nrows == 0 then []
    else
      MulStep(nrows, ncols);
      var k := (nrows - 1) * ncols;
      InitialBoard(nrows - 1, ncols, samples[..k]) + [samples[k..]]
  }

  /** Cell (i, j) of the initial grid is lit exactly when draw number
      i * ncols + j fell below the chance. */
  lemma {:induction false} InitialBoardCell(nrows: nat, ncols: nat, samples: seq<bool>, i: nat, j: nat)
    requires |samples| == nrows * ncols && i < nrows && j < ncols
    ensures i * ncols + j < |samples|
    ensures InitialBoard(nrows, ncols, samples)[i][j] == samples[i * ncols + j]
  {
    MulStep(nrows, ncols);
    var k := (nrows - 1) * ncols;
    if i < nrows - 1 {
      InitialBoardCell(nrows - 1, ncols, samples[..k], i, j);
    }
  }

  /** Pushing a row keeps the grid solved exactly when the row is all off. */
  lemma AllOffAppend(a: Grid, row: seq<bool>)
    ensures AllOff(a + [row]) <==> AllOff(a) && forall j | 0 <= j < |row| :: !row[j]
  {
    var g := a + [row];
    assert g[|a|] == row;
    assert forall i | 0 <= i < |a| :: g[i] == a[i];
  }

  /** The initial grid is already solved exactly when no draw lit a cell:
      with chance 0 it is all off; with chance 1 and at least one cell it is not. */
  lemma {:induction false} InitialAllOffIff(nrows: nat, ncols: nat, samples: seq<bool>)
    requires |samples| == nrows * ncols
    ensures AllOff(InitialBoard(nrows, ncols, samples)) <==>
              forall k | 0 <= k < |samples| :: !samples[k]
    decreases nrows
  {
    if nrows > 0 {
      MulStep(nrows, ncols);
      var k := (nrows - 1) * ncols;
      var front, last := samples[..k], samples[k..];
      InitialAllOffIff(nrows - 1, ncols, front);
      var g := InitialBoard(nrows, ncols, samples);
      assert g == InitialBoard(nrows - 1, ncols, front) + [last];
      var a := InitialBoard(nrows - 1, ncols, front);
      assert forall i | 0 <= i < k :: samples[i] == front[i];
      assert forall i | k <= i < |samples| :: samples[i] == last[i - k];
      AllOffAppend(a, last);
    }
  }
}
