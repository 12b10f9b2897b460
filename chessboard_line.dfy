/** ChessboardLine (gobang.cpp:50-141): one of the four lines through a cell,
    given by its direction and its start cell (the cell first leftmost, then
    topmost), with size() cells at i(k), j(k) for 0 <= k < size(). */
module Lines {
  import opened Pieces

  /** LINE fixes x, ROW fixes y, ULLRDiagonal keeps x - y, LLURDiagonal keeps x + y. */
  datatype ChessboardLineType = Line | Row | ULLRDiagonal | LLURDiagonal

  datatype ChessboardLine = ChessboardLine(kind: ChessboardLineType, x: int, y: int)

  const Directions: seq<ChessboardLineType> := [Line, Row, ULLRDiagonal, LLURDiagonal]

  function Min(a: int, b: int): int
  {
    if a <= b then a else b
  }

  /** The constructor as written (gobang.cpp:62-88). The start keeps the
      line's invariant (x, y, x - y or x + y), and for a board cell it is a
      board line except on the anti-diagonal past the main one, whose start
      lands in row SIZE. */
  function MakeLineAsWritten(kind: ChessboardLineType, x: int, y: int): (L: ChessboardLine)
    ensures L.kind == kind && OnLine(kind, x, y, L.x, L.y)
    ensures OnBoard(x, y) && kind != LLURDiagonal ==> IsBoardLine(L)
    ensures OnBoard(x, y) && kind == LLURDiagonal ==> (IsBoardLine(L) <==> x + y < SIZE)
    ensures OnBoard(x, y) && kind == LLURDiagonal && x + y >= SIZE ==> L.x == SIZE
  {
    match kind
    case Line => ChessboardLine(Line, x, 0)
    case Row => ChessboardLine(Row, 0, y)
    case ULLRDiagonal =>
      var shift := Min(x, y);
      ChessboardLine(ULLRDiagonal, x - shift, y - shift)
    case LLURDiagonal =>
      var shift := Min(SIZE - x, y);
      ChessboardLine(LLURDiagonal, x + shift, y - shift)
  }

  /** The constructor with the anti-diagonal start kept on the board: the
      shift towards the lower left stops at x == SIZE - 1. */
  function MakeLine(kind: ChessboardLineType, x: int, y: int): (L: ChessboardLine)
    ensures L.kind == kind
    ensures OnBoard(x, y) ==> IsBoardLine(L) && OnLine(kind, x, y, L.x, L.y)
  {
    if kind == LLURDiagonal then
      var shift := Min(SIZE - 1 - x, y);
      ChessboardLine(LLURDiagonal, x + shift, y - shift)
    else
      MakeLineAsWritten(kind, x, y)
  }

  /** size() (gobang.cpp:89-107): a board line has between 1 and SIZE cells. */
  function Size(L: ChessboardLine): (n: int)
    ensures IsBoardLine(L) ==> 1 <= n <= SIZE
  {
    match L.kind
    case Line => SIZE
    case Row => SIZE
    case ULLRDiagonal => Min(SIZE - L.x, SIZE - L.y)
    case LLURDiagonal => if L.y == 0 then L.x + 1 else SIZE - L.y
  }

  /** i(index) (gobang.cpp:108-124). */
  function I(L: ChessboardLine, k: int): int
  {
    match L.kind
    case Line => L.x
    case Row => k
    case ULLRDiagonal => L.x + k
    case LLURDiagonal => L.x - k
  }

  /** j(index) (gobang.cpp:125-140). */
  function J(L: ChessboardLine, k: int): int
  {
    match L.kind
    case Line => k
    case Row => L.y
    case ULLRDiagonal => L.y + k
    case LLURDiagonal => L.y + k
  }

  /** Cell (a, b) lies on the line of direction `kind` through (x, y). */
  predicate OnLine(kind: ChessboardLineType, x: int, y: int, a: int, b: int)
  {
    match kind
    case Line => a == x
    case Row => b == y
    case ULLRDiagonal => a - b == x - y
    case LLURDiagonal => a + b == x + y
  }

  /** Cell (a, b) lies on one of the four lines through (x, y). */
  predicate OnAnyLine(x: int, y: int, a: int, b: int)
  {
    a == x || b == y || a - b == x - y || a + b == x + y
  }

  /** The index of cell (a, b) along L: the inverse of k |-> (I(L, k), J(L, k)). */
  function IndexOf(L: ChessboardLine, a: int, b: int): int
  {
    match L.kind
    case Line => b
    case Row => a
    case ULLRDiagonal => a - L.x
    case LLURDiagonal => L.x - a
  }

  /** A line whose cells 0 .. Size - 1 are board cells and whose indices -1 and
      Size are not: every line MakeLine builds from a board cell. */
  predicate IsBoardLine(L: ChessboardLine)
  {
    match L.kind
    case Line => 0 <= L.x < SIZE && L.y == 0
    case Row => L.x == 0 && 0 <= L.y < SIZE
    case ULLRDiagonal => OnBoard(L.x, L.y) && (L.x == 0 || L.y == 0)
    case LLURDiagonal => OnBoard(L.x, L.y) && (L.y == 0 || L.x == SIZE - 1)
  }

  /** The indices -1 and Size fall outside the board, so the edges of the
      first and last run of a line read NOT_EXIST. */
  predicate EndsOffBoard(L: ChessboardLine)
  {
    Size(L) >= 0 && !OnBoard(I(L, -1), J(L, -1)) && !OnBoard(I(L, Size(L)), J(L, Size(L)))
  }

  /** Every index of a board line names a board cell on it, the index is
      recovered by IndexOf, and the two indices just outside are off the board. */
  lemma BoardLineCells(L: ChessboardLine, k: int)
    requires IsBoardLine(L) && 0 <= k < Size(L)
    ensures OnBoard(I(L, k), J(L, k))
    ensures OnLine(L.kind, L.x, L.y, I(L, k), J(L, k))
    ensures IndexOf(L, I(L, k), J(L, k)) == k
    ensures EndsOffBoard(L)
  {
  }

  /** Every board cell on a board line is reached by the index IndexOf gives. */
  lemma BoardLineCovers(L: ChessboardLine, a: int, b: int)
    requires IsBoardLine(L) && OnBoard(a, b) && OnLine(L.kind, L.x, L.y, a, b)
    ensures 0 <= IndexOf(L, a, b) < Size(L)
    ensures I(L, IndexOf(L, a, b)) == a && J(L, IndexOf(L, a, b)) == b
  {
  }

  /** Any two board cells on one line construct the same start. */
  lemma SameLineSameStart(kind: ChessboardLineType, x: int, y: int, a: int, b: int)
    requires OnBoard(x, y) && OnBoard(a, b) && OnLine(kind, x, y, a, b)
    ensures MakeLine(kind, x, y) == MakeLine(kind, a, b)
  {
  }

  /** Lying on a common line is symmetric. */
  lemma OnLineSymmetric(kind: ChessboardLineType, x: int, y: int, a: int, b: int)
    ensures OnLine(kind, x, y, a, b) == OnLine(kind, a, b, x, y)
  {
  }

  /** The line of each direction through (x, y) holds exactly the board cells
      on that direction's line through (x, y). */
  lemma LineThroughCell(kind: ChessboardLineType, x: int, y: int, a: int, b: int)
    requires OnBoard(x, y) && OnBoard(a, b)
    ensures var L := MakeLine(kind, x, y);
      OnLine(kind, x, y, a, b) <==> OnLine(L.kind, L.x, L.y, a, b)
  {
  }

  /** Cell (a, b) is one of the cells at indices 0 .. t - 1 of L. */
  predicate Covered(L: ChessboardLine, t: int, a: int, b: int)
  {
    OnLine(L.kind, L.x, L.y, a, b) && 0 <= IndexOf(L, a, b) < t
  }

  /** Going one index further along L covers exactly the cell at that index. */
  lemma CoveredStep(L: ChessboardLine, t: int, a: int, b: int)
    requires 0 <= t
    ensures Covered(L, t + 1, a, b) <==> Covered(L, t, a, b) || (a == I(L, t) && b == J(L, t))
  {
  }

  /** Once all Size(L) indices of the line through (x, y) are passed, the
      board cells covered are those on the line. */
  lemma CoveredAll(kind: ChessboardLineType, x: int, y: int, a: int, b: int)
    requires OnBoard(x, y) && OnBoard(a, b)
    ensures var L := MakeLine(kind, x, y);
      Covered(L, Size(L), a, b) <==> OnLine(kind, x, y, a, b)
  {
    var L := MakeLine(kind, x, y);
    LineThroughCell(kind, x, y, a, b);
    if OnLine(kind, x, y, a, b) {
      BoardLineCovers(L, a, b);
    }
  }

  /** The anti-diagonal start and size: (x + y, 0) with x + y + 1 cells below the
      main anti-diagonal, (SIZE - 1, x + y - SIZE + 1) with 2 SIZE - 1 - (x + y)
      cells from it on. */
  lemma AntiDiagonalShape(x: int, y: int)
    requires OnBoard(x, y)
    ensures var L := MakeLine(LLURDiagonal, x, y);
      (x + y < SIZE ==> L.x == x + y && L.y == 0 && Size(L) == x + y + 1)
      && (x + y >= SIZE - 1 ==> L.x == SIZE - 1 && L.y == x + y - (SIZE - 1)
                                 && Size(L) == 2 * SIZE - 1 - (x + y))
  {
  }

  /** As written, the anti-diagonal start is (x + y, 0) when x + y < SIZE and
      (SIZE, x + y - SIZE) otherwise. Index 0 is then off the board (this is
      the row SIZE that invalidateUnitDiff writes), indices 1 .. Size(L) are the
      cells of the line MakeLine builds, one place further along, and when
      x + y == SIZE size() counts one more index, (0, SIZE), off the board too. */
  lemma AntiDiagonalAsWritten(x: int, y: int)
    requires OnBoard(x, y)
    ensures var W := MakeLineAsWritten(LLURDiagonal, x, y);
      var L := MakeLine(LLURDiagonal, x, y);
      (x + y < SIZE ==> W == L)
      && (x + y >= SIZE ==>
            W.x == SIZE && W.y == x + y - SIZE
            && I(W, 0) == SIZE && !OnBoard(I(W, 0), J(W, 0))
            && (forall k :: 1 <= k <= Size(L) ==> I(W, k) == I(L, k - 1) && J(W, k) == J(L, k - 1))
            && (x + y > SIZE ==> Size(W) == Size(L) + 1)
            && (x + y == SIZE ==> Size(W) == Size(L) + 2
                                  && I(W, Size(W) - 1) == 0 && J(W, Size(W) - 1) == SIZE)
            && EndsOffBoard(W))
  {
  }
}
