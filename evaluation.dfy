/** What the evaluation functions of Grid compute, stated on the board value:
    the pieces along a line, EvaluateUnit (gobang.cpp:250-273), the change of
    score EvaluateUnitDiff memoizes (gobang.cpp:290-302), and the flag
    judgeFinished collects (gobang.cpp:399-407). */
module Evaluation {
  import opened Pieces
  import opened Lines
  import opened Scoring

  /** The pieces at indices 0 .. Size(L) - 1 of L, read with getValueAt. */
  function LineValues(b: Board, L: ChessboardLine): (vals: seq<Piece>)
    requires IsBoard(b) && Size(L) >= 0
    ensures |vals| == Size(L)
    ensures forall k :: 0 <= k < Size(L) ==> vals[k] == Get(b, I(L, k), J(L, k))
  {
    seq(Size(L), k requires 0 <= k < Size(L) => Get(b, I(L, k), J(L, k)))
  }

  /** The pieces of the line of direction `kind` through the board cell (x, y). */
  function ValuesThrough(b: Board, kind: ChessboardLineType, x: int, y: int): seq<Piece>
    requires IsBoard(b) && OnBoard(x, y)
  {
    LineValues(b, MakeLine(kind, x, y))
  }

  /** EvaluateUnit's sum: the scores of the four lines through (x, y). */
  function UnitScore(b: Board, x: int, y: int): int
    requires IsBoard(b) && OnBoard(x, y)
  {
    LineScore(ValuesThrough(b, Line, x, y)) + LineScore(ValuesThrough(b, Row, x, y))
    + LineScore(ValuesThrough(b, ULLRDiagonal, x, y)) + LineScore(ValuesThrough(b, LLURDiagonal, x, y))
  }

  /** The change of score of the lines through (x, y) in the directions
      `kinds` when piece p is placed at the empty cell (x, y). */
  function LinesDelta(b: Board, p: Piece, x: int, y: int, kinds: seq<ChessboardLineType>): int
    requires IsBoard(b) && OnBoard(x, y)
  {
    if kinds == [] then 0
    else
      LineScore(ValuesThrough(Set(b, x, y, p), kinds[0], x, y))
      - LineScore(ValuesThrough(Set(b, x, y, Empty), kinds[0], x, y))
      + LinesDelta(b, p, x, y, kinds[1..])
  }

  /** The value EvaluateUnitDiff memoizes for piece p at (x, y): the change of
      score of the four lines through (x, y) when p is placed there. */
  function Delta(b: Board, p: Piece, x: int, y: int): int
    requires IsBoard(b) && OnBoard(x, y)
  {
    LinesDelta(b, p, x, y, Directions)
  }

  /** Delta is the unit score with p placed at (x, y) less the unit score
      with the cell empty, the difference EvaluateUnitDiff computes. */
  lemma DeltaIsUnitDiff(b: Board, p: Piece, x: int, y: int)
    requires IsBoard(b) && OnBoard(x, y)
    ensures Delta(b, p, x, y) == UnitScore(Set(b, x, y, p), x, y) - UnitScore(Set(b, x, y, Empty), x, y)
  {
    var d := Directions;
    assert d[1..][1..][1..][1..] == [];
    assert LinesDelta(b, p, x, y, d[1..][1..][1..]) == LineScore(ValuesThrough(Set(b, x, y, p), LLURDiagonal, x, y))
      - LineScore(ValuesThrough(Set(b, x, y, Empty), LLURDiagonal, x, y));
    assert LinesDelta(b, p, x, y, d[1..][1..]) == LineScore(ValuesThrough(Set(b, x, y, p), ULLRDiagonal, x, y))
      - LineScore(ValuesThrough(Set(b, x, y, Empty), ULLRDiagonal, x, y)) + LinesDelta(b, p, x, y, d[1..][1..][1..]);
    assert LinesDelta(b, p, x, y, d[1..]) == LineScore(ValuesThrough(Set(b, x, y, p), Row, x, y))
      - LineScore(ValuesThrough(Set(b, x, y, Empty), Row, x, y)) + LinesDelta(b, p, x, y, d[1..][1..]);
  }

  /** Two boards whose lines in the directions `kinds` through (x, y) read
      the same, with p and with the cell empty, have the same change of score. */
  lemma {:induction false} LinesDeltaSame(b: Board, c: Board, p: Piece, x: int, y: int, kinds: seq<ChessboardLineType>)
    requires IsBoard(b) && IsBoard(c) && OnBoard(x, y)
    requires forall kind | kind in kinds :: ValuesThrough(Set(c, x, y, p), kind, x, y) == ValuesThrough(Set(b, x, y, p), kind, x, y)
    requires forall kind | kind in kinds :: ValuesThrough(Set(c, x, y, Empty), kind, x, y) == ValuesThrough(Set(b, x, y, Empty), kind, x, y)
    ensures LinesDelta(c, p, x, y, kinds) == LinesDelta(b, p, x, y, kinds)
  {
    if kinds != [] {
      assert kinds[0] in kinds;
      LinesDeltaSame(b, c, p, x, y, kinds[1..]);
    }
  }

  /** Writing a cell off a board line leaves the line's pieces as they were. */
  lemma LineValuesUnchanged(b: Board, c: Board, L: ChessboardLine, x: int, y: int)
    requires IsBoard(b) && IsBoard(c) && IsBoardLine(L) && OnBoard(x, y)
    requires !OnLine(L.kind, L.x, L.y, x, y)
    requires forall a, d :: (a != x || d != y) ==> Get(c, a, d) == Get(b, a, d)
    ensures LineValues(c, L) == LineValues(b, L)
  {
    forall k | 0 <= k < Size(L)
      ensures LineValues(c, L)[k] == LineValues(b, L)[k]
    {
      BoardLineCells(L, k);
    }
  }

  /** The memoized value of a cell depends only on the four lines through it:
      a write to a cell on none of them leaves it as it was. This is why
      invalidateUnitDiff clears exactly the cells on the four lines through
      the cell it is given. */
  lemma DeltaLocal(b: Board, x: int, y: int, v: Piece, p: Piece, a: int, c: int)
    requires IsBoard(b) && OnBoard(x, y) && OnBoard(a, c) && !OnAnyLine(x, y, a, c)
    ensures Delta(Set(b, x, y, v), p, a, c) == Delta(b, p, a, c)
  {
    var b' := Set(b, x, y, v);
    forall kind | kind in Directions
      ensures ValuesThrough(Set(b', a, c, p), kind, a, c) == ValuesThrough(Set(b, a, c, p), kind, a, c)
      ensures ValuesThrough(Set(b', a, c, Empty), kind, a, c) == ValuesThrough(Set(b, a, c, Empty), kind, a, c)
    {
      var L := MakeLine(kind, a, c);
      LineThroughCell(kind, a, c, x, y);
      LineValuesUnchanged(Set(b, a, c, p), Set(b', a, c, p), L, x, y);
      LineValuesUnchanged(Set(b, a, c, Empty), Set(b', a, c, Empty), L, x, y);
    }
    LinesDeltaSame(b, b', p, a, c, Directions);
  }

  /** The memoized value does not depend on what the cell itself holds. */
  lemma DeltaOwnCell(b: Board, x: int, y: int, v: Piece, p: Piece)
    requires IsBoard(b) && OnBoard(x, y)
    ensures Delta(Set(b, x, y, v), p, x, y) == Delta(b, p, x, y)
  {
    SetTwice(b, x, y, v, p);
    SetTwice(b, x, y, v, Empty);
    LinesDeltaSame(b, Set(b, x, y, v), p, x, y, Directions);
  }

  /** The flag after EvaluateUnit(x, y, &isFinished): the four lines in the
      order EvaluateUnit scores them. */
  function UnitFinished(b: Board, x: int, y: int, acc: Piece): Piece
    requires IsBoard(b) && OnBoard(x, y)
  {
    var f1 := FinishedFrom(ValuesThrough(b, Line, x, y), 0, acc);
    var f2 := FinishedFrom(ValuesThrough(b, Row, x, y), 0, f1);
    var f3 := FinishedFrom(ValuesThrough(b, ULLRDiagonal, x, y), 0, f2);
    FinishedFrom(ValuesThrough(b, LLURDiagonal, x, y), 0, f3)
  }

  /** EvaluateUnit's flag update at each board cell. */
  function UnitStep(b: Board): (int, int, Piece) -> Piece
    requires IsBoard(b)
  {
    (x, y, acc) => if OnBoard(x, y) then UnitFinished(b, x, y, acc) else acc
  }

  /** The flag after `unit` has been applied to the cells from (i, j) on, in
      row-major order. */
  function ScanWith(unit: (int, int, Piece) -> Piece, i: int, j: int, acc: Piece): Piece
    requires 0 <= i && 0 <= j <= SIZE
    decreases SIZE - i, SIZE - j
  {
    if i >= SIZE then acc
    else if j == SIZE then ScanWith(unit, i + 1, 0, acc)
    else ScanWith(unit, i, j + 1, unit(i, j, acc))
  }

  /** The flag after judgeFinished has scanned the cells from (i, j) on. */
  function ScanFinished(b: Board, i: int, j: int, acc: Piece): Piece
    requires IsBoard(b) && 0 <= i && 0 <= j <= SIZE
  {
    ScanWith(UnitStep(b), i, j, acc)
  }

  /** One of the four lines through (x, y) has a non-empty run of exactly five. */
  predicate CellHasFive(b: Board, x: int, y: int)
    requires IsBoard(b) && OnBoard(x, y)
  {
    HasFive(ValuesThrough(b, Line, x, y)) || HasFive(ValuesThrough(b, Row, x, y))
    || HasFive(ValuesThrough(b, ULLRDiagonal, x, y)) || HasFive(ValuesThrough(b, LLURDiagonal, x, y))
  }

  /** Cell (x, y) comes at or after (i, j) in row-major order. */
  predicate FromCell(i: int, j: int, x: int, y: int)
  {
    x > i || (x == i && y >= j)
  }

  /** Some board cell at or after (i, j) satisfies `has`. */
  ghost predicate SomeCellFrom(has: (int, int) -> bool, i: int, j: int)
  {
    exists x, y :: OnBoard(x, y) && FromCell(i, j, x, y) && has(x, y)
  }

  /** The cells of b with a five on one of their lines. */
  function FiveCells(b: Board): (int, int) -> bool
    requires IsBoard(b)
  {
    (x, y) => OnBoard(x, y) && CellHasFive(b, x, y)
  }

  /** Some cell at or after (i, j) has a five on one of its lines. */
  ghost predicate FiveFrom(b: Board, i: int, j: int)
    requires IsBoard(b)
  {
    SomeCellFrom(FiveCells(b), i, j)
  }

  /** A line's flag keeps acc when the line has no five and is otherwise a
      piece other than EMPTY. */
  lemma LineFlag(vals: seq<Piece>, acc: Piece)
    ensures !HasFive(vals) ==> FinishedFrom(vals, 0, acc) == acc
    ensures HasFive(vals) || acc != Empty ==> FinishedFrom(vals, 0, acc) != Empty
  {
    FinishedMeaning(vals, acc);
  }

  /** The line of direction Directions[k] through (x, y) is the last of the
      four, in the order EvaluateUnit scores them, that has a five. */
  ghost predicate LastFiveLine(b: Board, x: int, y: int, k: int)
    requires IsBoard(b) && OnBoard(x, y)
  {
    0 <= k < 4 && HasFive(ValuesThrough(b, Directions[k], x, y))
    && forall k' :: k < k' < 4 ==> !HasFive(ValuesThrough(b, Directions[k'], x, y))
  }

  /** The last line with a five is found by checking the lines after k. */
  lemma LastFiveLineFrom(b: Board, x: int, y: int, k: int)
    requires IsBoard(b) && OnBoard(x, y) && 0 <= k < 4
    requires HasFive(ValuesThrough(b, Directions[k], x, y))
    requires k < 1 ==> !HasFive(ValuesThrough(b, Row, x, y))
    requires k < 2 ==> !HasFive(ValuesThrough(b, ULLRDiagonal, x, y))
    requires k < 3 ==> !HasFive(ValuesThrough(b, LLURDiagonal, x, y))
    ensures LastFiveLine(b, x, y, k)
  {
    forall k' | k < k' < 4
      ensures !HasFive(ValuesThrough(b, Directions[k'], x, y))
    {
      assert k' == 1 || k' == 2 || k' == 3;
    }
  }

  /** EvaluateUnit's flag keeps acc when none of the four lines has a five.
      Otherwise it is the piece of the last five on the last of the four
      lines that has one, whatever acc was. */
  lemma UnitFlag(b: Board, x: int, y: int, acc: Piece)
    requires IsBoard(b) && OnBoard(x, y)
    ensures !CellHasFive(b, x, y) ==> UnitFinished(b, x, y, acc) == acc
    ensures CellHasFive(b, x, y) || acc != Empty ==> UnitFinished(b, x, y, acc) != Empty
    ensures CellHasFive(b, x, y) ==> exists k, u ::
      LastFiveLine(b, x, y, k) && LastFiveAt(ValuesThrough(b, Directions[k], x, y), u)
      && UnitFinished(b, x, y, acc) == ValuesThrough(b, Directions[k], x, y)[u]
  {
    var v0, v1 := ValuesThrough(b, Line, x, y), ValuesThrough(b, Row, x, y);
    var v2, v3 := ValuesThrough(b, ULLRDiagonal, x, y), ValuesThrough(b, LLURDiagonal, x, y);
    assert v0 == ValuesThrough(b, Directions[0], x, y) && v1 == ValuesThrough(b, Directions[1], x, y);
    assert v2 == ValuesThrough(b, Directions[2], x, y) && v3 == ValuesThrough(b, Directions[3], x, y);
    var f1 := FinishedFrom(v0, 0, acc);
    var f2 := FinishedFrom(v1, 0, f1);
    var f3 := FinishedFrom(v2, 0, f2);
    LineFlag(v0, acc);
    LineFlag(v1, f1);
    LineFlag(v2, f2);
    LineFlag(v3, f3);
    if HasFive(v3) {
      FinishedMeaning(v3, f3);
      LastFiveLineFrom(b, x, y, 3);
    } else if HasFive(v2) {
      FinishedMeaning(v2, f2);
      LastFiveLineFrom(b, x, y, 2);
    } else if HasFive(v1) {
      FinishedMeaning(v1, f1);
      LastFiveLineFrom(b, x, y, 1);
    } else if HasFive(v0) {
      FinishedMeaning(v0, acc);
      LastFiveLineFrom(b, x, y, 0);
    }
  }


  /** A row-major scan from (i, j) meets a cell with `has` exactly when (i, j)
      has it or the scan from the next cell meets one. */
  lemma SomeCellStep(has: (int, int) -> bool, i: int, j: int)
    requires 0 <= i < SIZE && 0 <= j < SIZE
    ensures SomeCellFrom(has, i, j) <==> has(i, j) || SomeCellFrom(has, i, j + 1)
  {
    if SomeCellFrom(has, i, j) && !has(i, j) {
      var x, y :| OnBoard(x, y) && FromCell(i, j, x, y) && has(x, y);
      assert FromCell(i, j + 1, x, y);
    }
    if has(i, j) {
      assert OnBoard(i, j) && FromCell(i, j, i, j);
    }
  }

  lemma SomeCellRowEnd(has: (int, int) -> bool, i: int)
    requires 0 <= i
    ensures SomeCellFrom(has, i, SIZE) <==> SomeCellFrom(has, i + 1, 0)
    ensures i >= SIZE ==> !SomeCellFrom(has, i, 0)
  {
    if SomeCellFrom(has, i, SIZE) {
      var x, y :| OnBoard(x, y) && FromCell(i, SIZE, x, y) && has(x, y);
      assert FromCell(i + 1, 0, x, y);
    }
  }

  /** `unit` keeps the flag at a cell without `has`, and leaves it other than
      EMPTY at a cell with `has` or when it was not EMPTY already. */
  ghost predicate FlagRule(unit: (int, int, Piece) -> Piece, has: (int, int) -> bool)
  {
    forall x, y, acc :: OnBoard(x, y) ==>
      (!has(x, y) ==> unit(x, y, acc) == acc) && (has(x, y) || acc != Empty ==> unit(x, y, acc) != Empty)
  }

  /** Cell (x', y') comes strictly after (x, y) in row-major order. */
  predicate After(x: int, y: int, x': int, y': int)
  {
    x' > x || (x' == x && y' > y)
  }

  /** (x, y) is the last board cell from (i, j) on, in row-major order, that
      has `has`. */
  ghost predicate LastCellFrom(has: (int, int) -> bool, i: int, j: int, x: int, y: int)
  {
    OnBoard(x, y) && FromCell(i, j, x, y) && has(x, y)
    && forall x', y' :: OnBoard(x', y') && After(x, y, x', y') ==> !has(x', y')
  }

  /** The scan keeps acc when no cell from (i, j) on has `has`. Otherwise it
      ends on a piece other than EMPTY, namely what `unit` gave at the last
      cell with `has`: each such cell overwrites the flag, and the cells
      after it keep it. */
  lemma {:induction false} ScanFlag(unit: (int, int, Piece) -> Piece, has: (int, int) -> bool,
                                    i: int, j: int, acc: Piece)
    requires FlagRule(unit, has) && 0 <= i && 0 <= j <= SIZE
    ensures !SomeCellFrom(has, i, j) ==> ScanWith(unit, i, j, acc) == acc
    ensures SomeCellFrom(has, i, j) || acc != Empty ==> ScanWith(unit, i, j, acc) != Empty
    ensures SomeCellFrom(has, i, j) ==>
      exists x, y, a :: LastCellFrom(has, i, j, x, y) && ScanWith(unit, i, j, acc) == unit(x, y, a)
    decreases SIZE - i, SIZE - j
  {
    if i >= SIZE {
      SomeCellRowEnd(has, i);
      if j == SIZE {
        SomeCellRowEnd(has, i + 1);
      }
    } else if j == SIZE {
      ScanFlag(unit, has, i + 1, 0, acc);
      SomeCellRowEnd(has, i);
      if SomeCellFrom(has, i + 1, 0) {
        var x, y, a :| LastCellFrom(has, i + 1, 0, x, y) && ScanWith(unit, i + 1, 0, acc) == unit(x, y, a);
        assert LastCellFrom(has, i, j, x, y);
      }
    } else {
      var acc' := unit(i, j, acc);
      ScanFlag(unit, has, i, j + 1, acc');
      SomeCellStep(has, i, j);
      if SomeCellFrom(has, i, j + 1) {
        var x, y, a :| LastCellFrom(has, i, j + 1, x, y) && ScanWith(unit, i, j + 1, acc') == unit(x, y, a);
        assert LastCellFrom(has, i, j, x, y);
      } else if has(i, j) {
        forall x', y' | OnBoard(x', y') && After(i, j, x', y')
          ensures !has(x', y')
        {
          if has(x', y') {
            assert FromCell(i, j + 1, x', y');
          }
        }
        assert LastCellFrom(has, i, j, i, j);
      }
    }
  }

  /** judgeFinished returns EMPTY exactly when no line through any cell has a
      non-empty run of exactly five. */
  lemma JudgeFinishedMeaning(b: Board)
    requires IsBoard(b)
    ensures ScanFinished(b, 0, 0, Empty) == Empty <==> !FiveFrom(b, 0, 0)
  {
    UnitStepRule(b);
    ScanFlag(UnitStep(b), FiveCells(b), 0, 0, Empty);
  }

  /** EvaluateUnit's flag update follows FlagRule for the cells with a five. */
  lemma UnitStepRule(b: Board)
    requires IsBoard(b)
    ensures FlagRule(UnitStep(b), FiveCells(b))
  {
    forall x, y, acc | OnBoard(x, y)
      ensures (!FiveCells(b)(x, y) ==> UnitStep(b)(x, y, acc) == acc)
              && (FiveCells(b)(x, y) || acc != Empty ==> UnitStep(b)(x, y, acc) != Empty)
    {
      UnitFlag(b, x, y, acc);
    }
  }

  /** Which piece judgeFinished reports when the board has a five: the piece
      of the last five on the last of the four lines, in EvaluateUnit's
      order, through the last cell, in row-major order, whose lines hold a
      five. Every step of the scan overwrites the flag, so the last five
      found wins. */
  lemma JudgeFinishedWinner(b: Board)
    requires IsBoard(b)
    ensures FiveFrom(b, 0, 0) ==> exists x, y, k, u ::
      LastCellFrom(FiveCells(b), 0, 0, x, y) && LastFiveLine(b, x, y, k)
      && LastFiveAt(ValuesThrough(b, Directions[k], x, y), u)
      && ScanFinished(b, 0, 0, Empty) == ValuesThrough(b, Directions[k], x, y)[u]
  {
    UnitStepRule(b);
    ScanFlag(UnitStep(b), FiveCells(b), 0, 0, Empty);
    if FiveFrom(b, 0, 0) {
      var x, y, a :| LastCellFrom(FiveCells(b), 0, 0, x, y)
                     && ScanFinished(b, 0, 0, Empty) == UnitStep(b)(x, y, a);
      UnitFlag(b, x, y, a);
      var k, u :| LastFiveLine(b, x, y, k) && LastFiveAt(ValuesThrough(b, Directions[k], x, y), u)
                  && UnitFinished(b, x, y, a) == ValuesThrough(b, Directions[k], x, y)[u];
    }
  }

  /** When every five on the board is p's, judgeFinished reports p if there
      is a five and EMPTY if there is none. */
  lemma JudgeFinishedOneSide(b: Board, p: Piece)
    requires IsBoard(b)
    requires forall x, y, k, u :: OnBoard(x, y) && 0 <= k < 4 && IsFiveAt(ValuesThrough(b, Directions[k], x, y), u)
               ==> ValuesThrough(b, Directions[k], x, y)[u] == p
    ensures ScanFinished(b, 0, 0, Empty) == if FiveFrom(b, 0, 0) then p else Empty
  {
    JudgeFinishedMeaning(b);
    JudgeFinishedWinner(b);
  }

  /** No cell of the board holds NOT_EXIST (the program only ever places
      EMPTY, BOT and PLAYER). */
  ghost predicate NoHoles(b: Board)
    requires IsBoard(b)
  {
    forall x, y :: OnBoard(x, y) ==> b[x][y] != NotExist
  }

  /** The as-written anti-diagonal reads the pieces of the corrected one with
      NOT_EXIST before them, and after them too when x + y == SIZE. */
  lemma AntiDiagonalValues(b: Board, x: int, y: int)
    requires IsBoard(b) && OnBoard(x, y) && x + y >= SIZE
    ensures var W := MakeLineAsWritten(LLURDiagonal, x, y);
      Size(W) >= 0
      && LineValues(b, W)
         == Padded(ValuesThrough(b, LLURDiagonal, x, y), if x + y == SIZE then [NotExist] else [])
  {
    var W := MakeLineAsWritten(LLURDiagonal, x, y);
    var L := MakeLine(LLURDiagonal, x, y);
    AntiDiagonalAsWritten(x, y);
    var tail: seq<Piece> := if x + y == SIZE then [NotExist] else [];
    var p := Padded(LineValues(b, L), tail);
    assert |LineValues(b, W)| == |p|;
    forall k | 0 <= k < Size(W)
      ensures LineValues(b, W)[k] == p[k]
    {
      if 1 <= k <= Size(L) {
        assert p[k] == LineValues(b, L)[k - 1];
      }
    }
  }

  /** The start off the board does not change what the anti-diagonal scores
      or flags: the extra indices read NOT_EXIST. */
  lemma AntiDiagonalAsWrittenScoresSame(b: Board, x: int, y: int, acc: Piece)
    requires IsBoard(b) && OnBoard(x, y) && NoHoles(b)
    ensures var W := MakeLineAsWritten(LLURDiagonal, x, y);
      Size(W) >= 0
      && LineScore(LineValues(b, W)) == LineScore(ValuesThrough(b, LLURDiagonal, x, y))
      && FinishedFrom(LineValues(b, W), 0, acc) == FinishedFrom(ValuesThrough(b, LLURDiagonal, x, y), 0, acc)
  {
    AntiDiagonalAsWritten(x, y);
    if x + y >= SIZE {
      var vals := ValuesThrough(b, LLURDiagonal, x, y);
      var L := MakeLine(LLURDiagonal, x, y);
      BoardLineCells(L, 0);
      BoardLineCells(L, Size(L) - 1);
      AntiDiagonalValues(b, x, y);
      PaddedLine(vals, if x + y == SIZE then [NotExist] else [], acc);
    }
  }
}
