# Lights Out board engine, modelled in Dafny

This project models the game engine of a Lights Out web component: the
`Board` class of `src/Board.js`. A board is `nrows x ncols` cells, each lit or
unlit. Clicking a cell toggles it and its four orthogonal neighbours. The game
is won when every light is off.

The model has three modules:

- `Lights` (`lights.dfy`) describes the grid as a value (`seq<seq<bool>>`). It
  has the bounds-guarded `flipCell`, the five-cell move, the win check
  written as the source writes it (`board.every(row => row.every(cell => !cell))`),
  and the initial grid built from the random draws. The lemmas state what a
  move changes and what it leaves alone. They show that a move is its own
  inverse, count the cells a move toggles, and relate the nested `every` to
  "every cell is off".
- `Coord` (`coord.dfy`) describes the coordinate strings. `render` gives each
  cell the string `` `${y}-${x}` ``, and `flipCellsAround` reads it back with
  `coord.split("-").map(Number)`. The module covers decimal numerals,
  `String.prototype.split` and `Number` on strings of digits, and proves the
  round trip.
- `BoardComponent` (`board.dfy`) describes the component's state. The class
  `Board` holds the fixed `nrows`/`ncols`, the grid as an `array2<bool>` that
  moves change in place, and the `hasWon` flag. `CreateBoard` fills the array
  with nested loops. `FlipCell` and `FlipAroundInPlace` change it in place,
  and each is proved equal to the pure `Lights` function of the old grid.
  `FlipCellsAround` parses the coordinate and calls `FlipAroundInPlace`.
  `FlipCellsAround` then stores `hasWon`. `Render` builds the cell table, or the
  winner view, with nested loops. `Click` is the handler each rendered cell
  passes its coordinate to.

Modelling choices:

- `Math.random() < chanceLightStartsOn` becomes an injected `seq<bool>`. It
  holds one entry per cell, in the order the nested loops draw them (row by
  row). Entry `i * ncols + j` says whether the draw for cell `(i, j)` fell
  below the chance.
- `setState({board, hasWon})` becomes a direct assignment of both fields.
  These happen after the in-place mutation of the same array.
- A move whose clicked cell is off the board is not skipped. The code skips
  that cell, but it still toggles each neighbour that is on the board.
  `Lights.FlipAround` therefore has no precondition on `(y, x)`, and its
  contract covers this case.
- The board size is a `nat`. The code also accepts a 0-row or 0-column board
  (the loops just do not run), so the model does too.
- The constructor sets `hasWon` to false whatever board was drawn. If every
  draw comes out unlit, the board starts all off but is not marked as won.
  The doc comment describes `hasWon` as "true when board is all off", so the
  model states that relation only after each move
  (`BoardComponent.Board.FlipCellsAround`). It does not hold from the start.

## Model

| member | source | states |
|---|---|---|
| `Lights.FlipCell` | src/Board.js:70-76 | flipCell negates cell (y, x) exactly when 0 <= x < ncols and 0 <= y < nrows; every other cell keeps its value, an off-board coordinate leaves the grid unchanged (no error), and the grid stays nrows x ncols |
| `Lights.FlipAround` | src/Board.js:78-85 | the five flipCell calls negate each on-board cell of the plus-shaped neighbourhood of (y, x) exactly once and leave every other cell as it was, for any integer (y, x), including a clicked cell off the board whose in-range neighbours still flip |
| `Lights.FlipAroundTwice` | src/Board.js:70-85 | making the same move twice restores the original grid |
| `Lights.FlipAroundChanges` | src/Board.js:73-85 | the set of cells a move changes is exactly the on-board part of the cell and its four orthogonal neighbours; nothing outside it changes |
| `Lights.ToggledCount` | src/Board.js:79-85 | a move on an on-board cell toggles 1 cell plus one for each of the left, right, upper and lower neighbours that is on the board |
| `Lights.ToggledShapes` | src/Board.js:79-85 | on a board of at least 2 x 2, a move toggles 5 cells in the interior, 4 on an edge and 3 in a corner |
| `Lights.Every` | src/Board.js:93 | Array.prototype.every, checked left to right, is true exactly when its predicate holds of every element |
| `Lights.HasWon` | src/Board.js:88-93 | the win check board.every(row => row.every(cell => !cell)) is true exactly when every cell of every row is off (the documented meaning of hasWon, line 16) |
| `Lights.MoveAfterWinLights` | src/Board.js:63-85 | flipCellsAround itself has no guard on hasWon: on an all-off grid, any move on the board lights the clicked cell, so the grid is no longer all off (in the component such a click can only reach an all-off board that was drawn all off, since the constructor sets hasWon to false and render offers no cells once hasWon holds) |
| `Lights.InitialBoard` | src/Board.js:49-58 | createBoard's result, built row by row from the draws, has exactly nrows rows of ncols cells each |
| `Lights.InitialBoardCell` | src/Board.js:51-55 | cell (i, j) of the initial grid is lit exactly when draw number i * ncols + j fell below the chance, and that draw exists |
| `Lights.InitialAllOffIff` | src/Board.js:49-58 | the initial grid is all off exactly when no draw lit a cell (so chance 0 gives an all-off board and chance 1 on a non-empty board does not) |
| `Lights.AllOffAppend` | src/Board.js:56 | pushing a row keeps the grid all off exactly when the grid was all off and the new row is all off |
| `Coord.Decimal` | src/Board.js:115 | the template literal's numeral of a non-negative integer is a non-empty string of digits with no '-' and no leading zero unless the number is 0 |
| `Coord.DigitsValue` | src/Board.js:67 | Number applied to a piece of ASCII digits; on the numeral of n it gives back n |
| `Coord.Split` | src/Board.js:67 | split("-") gives at least one piece, and no piece contains the separator |
| `Coord.JoinSplit` | src/Board.js:67 | joining the pieces split returns, with the separator between them, gives back the original string, so split loses nothing |
| `Coord.SplitWithoutSep` | src/Board.js:67 | a string without "-" splits into itself alone |
| `Coord.SplitAtFirstSep` | src/Board.js:67 | a "-"-free piece, a "-", then the rest splits into that piece followed by the pieces of the rest |
| `Coord.Format` | src/Board.js:115 | the coordinate string `${y}-${x}` splits on "-" into exactly two pieces, the numerals of y and x |
| `Coord.Parse` | src/Board.js:67 | coord.split("-").map(Number) destructured into [y, x]: every string `${y}-${x}` that a cell passes to flipCellsAround (line 115-116) reads back as exactly (y, x) |
| `Coord.FormatInjective` | src/Board.js:115-116 | different cells get different coordinate strings, so the cell keys are unique |
| `BoardComponent.CreateBoard` | src/Board.js:49-58 | the nested loops return a fresh nrows x ncols array whose cells are the pure initial grid of the same draws |
| `BoardComponent.Board.constructor` | src/Board.js:39-45 | the initial state has hasWon false whatever the board, and a fresh board of the props' size filled from the draws |
| `BoardComponent.Board.FlipCell` | src/Board.js:70-76 | the in-place flipCell leaves the array equal to the pure FlipCell of its old contents |
| `BoardComponent.Board.FlipAroundInPlace` | src/Board.js:78-85 | the five in-place flipCell calls leave the array equal to the pure FlipAround of its old contents |
| `BoardComponent.Board.FlipCellsAround` | src/Board.js:63-96 | after a click on a readable coordinate, the same array holds the pure FlipAround of its old contents at the parsed (y, x), the size is unchanged, and hasWon holds exactly when every cell is off |
| `BoardComponent.Board.Click` | src/Board.js:115-116 | the handler of cell (y, x) makes the move at (y, x) and sets hasWon to "all off" |
| `BoardComponent.Board.Render` | src/Board.js:101-119 | the winner view is shown exactly when hasWon holds; otherwise the table has nrows rows of ncols cells, and cell (y, x) has coordinate `${y}-${x}` and is lit as the board says |
| `BoardComponent.ClickTwice` | src/Board.js:79-85 | clicking the same cell twice leaves the component's board as it was |

## Left out

- The JSX markup is not modelled: the `<Cell />` component, the table and
  `<tr>` elements, the winner message's markup, the CSS import and the React
  imports (src/Board.js:1-3, 102-131). They are presentation only. `Render`
  keeps what reaches each cell: its coordinate string and whether it is lit.
  It also keeps the choice between the winner view and the table.
- `Math.random()` and the floating-point comparison with `chanceLightStartsOn`
  (src/Board.js:54) are not modelled. An injected sequence of booleans stands
  for their outcomes. Probabilities are not modelled.
- `console.log` (src/Board.js:64) is not modelled. It is output with no
  effect on state.
- React's batched, asynchronous `setState` (src/Board.js:95) is modelled as
  a direct assignment of `board` and `hasWon`.
- `defaultProps` (src/Board.js:33-37) is not modelled. `nrows` and `ncols`
  are constructor arguments kept in constant fields. The chance plays no part
  once the draws are injected.
- BoardComponent.Board.FlipCellsAround: requires `Coord.Parse(coord).Some?`.
  This means the first two `-`-separated pieces of the string are plain ASCII
  digit strings. Every string `render` hands out is of this form
  (`Coord.Parse`). JavaScript also accepts other strings, and the model
  does not cover them:
  - A non-numeric piece gives `NaN`. A missing second piece leaves `x`
    `undefined`, and `Number` is never applied to it. In both cases the move
    toggles nothing: `undefined >= 0` is false, `undefined` plus or minus 1
    is `NaN`, and every comparison with `NaN` is false.
  - Signs, whitespace, fractions, exponents, hexadecimal and `Infinity` are
    read by `Number` as numbers. A fractional row index even throws when
    `board[y]` is undefined.
  The full grammar of JavaScript's `Number` is outside this model.
- Negative or fractional props: `nrows` and `ncols` are naturals in the model.
