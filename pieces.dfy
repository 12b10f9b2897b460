/** The pieces and the 15 x 15 board of the engine (gobang.h).

    A board is the value of the array `grid[SIZE][SIZE]`: row x is board[x],
    and cell (x, y) is board[x][y]. */
module Pieces {

  /** ChessPiece: NOT_EXIST is what a read outside the board yields. */
  datatype Piece = NotExist | Empty | Bot | Player

  const SIZE: int := 15

  type Board = seq<seq<Piece>>

  predicate OnBoard(x: int, y: int)
  {
    0 <= x < SIZE && 0 <= y < SIZE
  }

  predicate IsBoard(b: Board)
  {
    |b| == SIZE && forall x :: 0 <= x < SIZE ==> |b[x]| == SIZE
  }

  /** The board every Grid starts from. */
  function EmptyBoard(): (b: Board)
    ensures IsBoard(b)
    ensures forall x, y :: OnBoard(x, y) ==> b[x][y] == Empty
  {
    seq(SIZE, _ => seq(SIZE, _ => Empty))
  }

  /** getValueAt on the board value: NOT_EXIST outside the board. */
  function Get(b: Board, x: int, y: int): (r: Piece)
    requires IsBoard(b)
    ensures !OnBoard(x, y) ==> r == NotExist
  {
    if OnBoard(x, y) then b[x][y] else NotExist
  }

  /** The board with cell (x, y) set to v. */
  function Set(b: Board, x: int, y: int, v: Piece): (r: Board)
    requires IsBoard(b) && OnBoard(x, y)
    ensures IsBoard(r)
    ensures forall a, c :: Get(r, a, c) == if a == x && c == y then v else Get(b, a, c)
  {
    b[x := b[x][y := v]]
  }

  /** Setting a cell back to the value it had gives the same board. */
  lemma SetUndo(b: Board, x: int, y: int, v: Piece)
    requires IsBoard(b) && OnBoard(x, y)
    ensures Set(Set(b, x, y, v), x, y, b[x][y]) == b
  {
    assert Set(Set(b, x, y, v), x, y, b[x][y])[x] == b[x];
  }

  /** Writing a cell's own value back changes nothing. */
  lemma SetSame(b: Board, x: int, y: int)
    requires IsBoard(b) && OnBoard(x, y)
    ensures Set(b, x, y, b[x][y]) == b
  {
    assert Set(b, x, y, b[x][y])[x] == b[x];
  }

  /** Two writes to one cell leave only the second. */
  lemma SetTwice(b: Board, x: int, y: int, v: Piece, w: Piece)
    requires IsBoard(b) && OnBoard(x, y)
    ensures Set(Set(b, x, y, v), x, y, w) == Set(b, x, y, w)
  {
    assert Set(Set(b, x, y, v), x, y, w)[x] == Set(b, x, y, w)[x];
  }

  /** Writes to two different cells commute. */
  lemma SetCommutes(b: Board, x: int, y: int, v: Piece, a: int, c: int, w: Piece)
    requires IsBoard(b) && OnBoard(x, y) && OnBoard(a, c) && (x != a || y != c)
    ensures Set(Set(b, x, y, v), a, c, w) == Set(Set(b, a, c, w), x, y, v)
  {
    if x == a {
      assert Set(Set(b, x, y, v), a, c, w)[x] == Set(Set(b, a, c, w), x, y, v)[x];
    }
  }
}
