/** The Lights Out Board component: its fixed size, the grid it mutates in
    place and the hasWon flag, with the moves a click triggers and the
    cells (or the winner view) it renders. */
module BoardComponent {
  import Lights
  import Coord

  /** The grid held in an array, read as rows of cells. */
  function View(b: array2<bool>): (g: Lights.Grid)
    reads b
    ensures Lights.IsRect(g, b.Length0, b.Length1)
    ensures forall i, j | 0 <= i < b.Length0 && 0 <= j < b.Length1 :: g[i][j] == b[i, j]
  {
    seq(b.Length0, i requires 0 <= i < b.Length0 reads b =>
      seq(b.Length1, j requires 0 <= j < b.Length1 reads b => b[i, j]))
  }

  /** createBoard: nrows rows of ncols cells, filled row by row from the
      injected draws (samples[k] stands for Math.random() < chance). */
  method CreateBoard(nrows: nat, ncols: nat, samples: seq<bool>) returns (b: array2<bool>)
    requires |samples| == nrows * ncols
    ensures fresh(b)
    ensures b.Length0 == nrows && b.Length1 == ncols
    ensures View(b) == Lights.InitialBoard(nrows, ncols, samples)
  {
    b := new bool[nrows, ncols];
    var i := 0;
    while i < nrows
      invariant 0 <= i <= nrows
      invariant forall r, c | 0 <= r < i && 0 <= c < ncols ::
                  Lights.InitialBoard(nrows, ncols, samples)[r][c] == b[r, c]
    {
      var j := 0;
      while j < ncols
        invariant 0 <= j <= ncols
        invariant forall r, c | 0 <= r < i && 0 <= c < ncols ::
                    Lights.InitialBoard(nrows, ncols, samples)[r][c] == b[r, c]
        invariant forall c | 0 <= c < j ::
                    Lights.InitialBoard(nrows, ncols, samples)[i][c] == b[i, c]
      {
        Lights.InitialBoardCell(nrows, ncols, samples, i, j);
        b[i, j] := samples[i * ncols + j];
        j := j + 1;
      }
      i := i + 1;
    }
    Lights.GridExt(View(b), Lights.InitialBoard(nrows, ncols, samples), nrows, ncols);
  }

  /** What render hands to one <Cell />: its key (also the argument its
      click handler passes to flipCellsAround) and whether it is lit. */
  datatype CellView = CellView(coord: string, isLit: bool)

  /** What render shows: the winner message, or the table of cells. */
  datatype Screen = Winner | Table(rows: seq<seq<CellView>>)

  class Board {
    const nrows: nat
    const ncols: nat
    var board: array2<bool>
    var hasWon: bool

    /** The board array keeps the size fixed by the props. */
    ghost predicate Valid()
      reads this
    {
      board.Length0 == nrows && board.Length1 == ncols
    }

    /** The board's cells as a grid value. */
    function Cells(): (g: Lights.Grid)
      reads this, board
      requires Valid()
      ensures Lights.IsRect(g, nrows, ncols)
    {
      View(board)
    }

    /** The initial state: a fresh random board, and hasWon false whatever
        that board is. */
    constructor (nrows: nat, ncols: nat, samples: seq<bool>)
      requires |samples| == nrows * ncols
      ensures Valid() && fresh(board)
      ensures this.nrows == nrows && this.ncols == ncols
      ensures Cells() == Lights.InitialBoard(nrows, ncols, samples)
      ensures !hasWon
    {
      var b := CreateBoard(nrows, ncols, samples);
      this.nrows := nrows;
      this.ncols := ncols;
      hasWon := false;
      board := b;
    }

    /** flipCell: negate the cell when it is on the board, else do nothing. */
    method FlipCell(y: int, x: int)
      requires Valid()
      modifies board
      ensures Valid()
      ensures Cells() == Lights.FlipCell(old(Cells()), nrows, ncols, y, x)
    {
      ghost var before := Cells();
      if x >= 0 && x < ncols && y >= 0 && y < nrows {
        board[y, x] := !board[y, x];
      }
      Lights.GridExt(Cells(), Lights.FlipCell(before, nrows, ncols, y, x), nrows, ncols);
    }

    /** The five flipCell calls of flipCellsAround, on the array in place:
        the clicked cell, left, right, up, down. */
    method FlipAroundInPlace(y: int, x: int)
      requires Valid()
      modifies board
      ensures Valid()
      ensures Cells() == Lights.FlipAround(old(Cells()), nrows, ncols, y, x)
    {
      ghost var g0 := Cells();
      FlipCell(y, x);
      ghost var g1 := Cells();
      FlipCell(y, x - 1);
      ghost var g2 := Cells();
      FlipCell(y, x + 1);
      ghost var g3 := Cells();
      FlipCell(y - 1, x);
      ghost var g4 := Cells();
      FlipCell(y + 1, x);
      assert Cells() == Lights.FlipAround(g0, nrows, ncols, y, x) by {
        assert g4 == Lights.FlipCell(g3, nrows, ncols, y - 1, x);
        assert g3 == Lights.FlipCell(g2, nrows, ncols, y, x + 1);
        assert g2 == Lights.FlipCell(g1, nrows, ncols, y, x - 1);
        assert g1 == Lights.FlipCell(g0, nrows, ncols, y, x);
      }
    }

    /** flipCellsAround: read the coordinate, flip the clicked cell and its
        four neighbours in place, then store the board and whether every
        light is now off. */
    method FlipCellsAround(coord: string)
      requires Valid()
      requires Coord.Parse(coord).Some?
      modifies this, board
      ensures Valid() && board == old(board)
      ensures Cells() == Lights.FlipAround(old(Cells()), nrows, ncols,
                                           Coord.Parse(coord).value.0, Coord.Parse(coord).value.1)
      ensures hasWon <==> Lights.AllOff(Cells())
    {
      var b := board;
      var (y, x) := Coord.Parse(coord).value;
      FlipAroundInPlace(y, x);
      var won := Lights.HasWon(View(b));
      board, hasWon := b, won;
    }

    /** The click handler render attaches to cell (y, x): it passes the
        cell's coordinate string, which reads back as (y, x). */
    method Click(y: nat, x: nat)
      requires Valid()
      modifies this, board
      ensures Valid() && board == old(board)
      ensures Cells() == Lights.FlipAround(old(Cells()), nrows, ncols, y, x)
      ensures hasWon <==> Lights.AllOff(Cells())
    {
      assert Coord.Parse(Coord.Format(y, x)) == Coord.Some((y, x));
      FlipCellsAround(Coord.Format(y, x));
    }

    /** render: the winner view exactly when hasWon; otherwise one row per
        board row, cell (y, x) keyed `${y}-${x}` and lit as the board says. */
    method Render() returns (screen: Screen)
      requires Valid()
      ensures screen.Winner? <==> hasWon
      ensures screen.Table? ==>
                |screen.rows| == nrows &&
                forall y | 0 <= y < nrows :: |screen.rows[y]| == ncols
      ensures screen.Table? ==>
                forall y, x | 0 <= y < nrows && 0 <= x < ncols ::
                  x < |screen.rows[y]| &&
                  screen.rows[y][x] == CellView(Coord.Format(y, x), Cells()[y][x])
    {
      if hasWon {
        return Winner;
      }
      var table: seq<seq<CellView>> := [];
      var y := 0;
      while y < nrows
        invariant 0 <= y <= nrows
        invariant |table| == y
        invariant forall r | 0 <= r < y :: |table[r]| == ncols
        invariant forall r, c | 0 <= r < y && 0 <= c < ncols ::
                    c < |table[r]| && table[r][c] == CellView(Coord.Format(r, c), board[r, c])
      {
        var row: seq<CellView> := [];
        var x := 0;
        while x < ncols
          invariant 0 <= x <= ncols
          invariant |row| == x
          invariant forall c | 0 <= c < x :: row[c] == CellView(Coord.Format(y, c), board[y, c])
        {
          var coord := Coord.Format(y, x);
          row := row + [CellView(coord, board[y, x])];
          x := x + 1;
        }
        table := table + [row];
        y := y + 1;
      }
      screen := Table(table);
    }
  }

  /** Clicking the same cell twice restores the board. */
  method ClickTwice(b: Board, y: nat, x: nat)
    requires b.Valid()
    modifies b, b.board
    ensures b.Valid() && b.board == old(b.board)
    ensures b.Cells() == old(b.Cells())
  {
    ghost var start := b.Cells();
    b.Click(y, x);
    b.Click(y, x);
    Lights.FlipAroundTwice(start, b.nrows, b.ncols, y, x);
  }
}
