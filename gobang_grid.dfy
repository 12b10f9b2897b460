/** The Grid of the engine (gobang.cpp:143-411): the board array, the memo of
    score differences, the line scoring, the alpha-beta search and the end
    test. The ghost field `board` is the value of the array `grid`; every
    contract is stated on it. */
module GobangGrid {
  import opened Pieces
  import opened Lines
  import opened Scoring
  import opened Evaluation
  import opened Search

  /** INT64_MIN and INT64_MAX, the window ChoosePosition opens. */
  const Int64Min: int := -0x8000_0000_0000_0000
  const Int64Max: int := 0x7FFF_FFFF_FFFF_FFFF

  datatype Option<T> = None | Some(value: T)

  /** The search depths ChoosePosition tries: DEPTH = 4, 6, 8, 10. */
  predicate IsDepth(D: int)
  {
    4 <= D <= 10 && D % 2 == 0
  }

  /** The root's value at search depth D, cut to the widest window
      [INT64_MIN, INT64_MAX]: what minimaxSearch(0, ...) returns when not
      interrupted. */
  ghost function RootValue(b: Board, D: int): int
    requires IsBoard(b) && 0 <= D
  {
    Clamp(Value(b, 0, D, 0), Int64Min, Int64Max)
  }

  /** The value ChoosePosition keeps after the searches at the even depths
      from 4 up to but excluding D: the largest root value among them, and
      INT64_MIN when there is none. The board in the decreases clause keeps
      constant depths from unfolding the whole chain. */
  ghost function BestBelow(b: Board, D: int): int
    requires IsBoard(b)
    decreases D, b
  {
    if D <= 4 then Int64Min
    else
      var v := BestBelow(b, D - 2);
      var r := RootValue(b, D - 2);
      if r > v then r else v
  }

  /** What ChoosePosition holds after the searches at the even depths from 4
      up to but excluding D when none was cut short: the best value is
      BestBelow, and a kept move comes from the EARLIEST depth among them
      whose root value is the best (the comparison is strict, so a tie at a
      later depth keeps the earlier move), and has that value itself when
      the value is below INT64_MAX. */
  ghost predicate Kept(b: Board, D: int, action: Option<Cell>, best: int, chosen: int)
    requires IsBoard(b)
  {
    best == BestBelow(b, D)
    && (action.Some? ==>
          4 <= chosen < D && chosen % 2 == 0 && best == RootValue(b, chosen)
          && (forall D' | 4 <= D' < chosen && D' % 2 == 0 :: RootValue(b, D') < best)
          && (best < Int64Max ==> ChildValue(b, 0, chosen, 0, action.value) == Fin(best)))
  }

  /** BestBelow is an upper bound of the root values at the depths below D,
      and it is INT64_MIN or one of them. */
  lemma {:induction false} BestBelowBounds(b: Board, D: int)
    requires IsBoard(b) && 4 <= D && D % 2 == 0
    ensures Int64Min <= BestBelow(b, D)
    ensures forall D' | 4 <= D' < D && D' % 2 == 0 :: RootValue(b, D') <= BestBelow(b, D)
    ensures BestBelow(b, D) == Int64Min ||
      exists D' | 4 <= D' < D && D' % 2 == 0 :: BestBelow(b, D) == RootValue(b, D')
    decreases D
  {
    if D > 4 {
      BestBelowBounds(b, D - 2);
    }
  }

  /** The memo tables are indexed by piece - PIECE_START: BOT 0, PLAYER 1. */
  function Slot(p: Piece): (k: int)
    requires IsStone(p)
    ensures 0 <= k < 2 && SlotPiece(k) == p
  {
    if p == Bot then 0 else 1
  }

  function SlotPiece(k: int): Piece
  {
    if k == 0 then Bot else Player
  }

  /** The anti-diagonal pass of invalidateUnitDiff has swept the lines of the
      first k directions of Directions. */
  predicate ClearedBy(x: int, y: int, k: nat, a: int, b: int)
    requires k <= 4
  {
    k > 0 && (ClearedBy(x, y, k - 1, a, b) || OnLine(Directions[k - 1], x, y, a, b))
  }

  /** All four directions cover the four lines through (x, y). */
  lemma ClearedAll(x: int, y: int, a: int, b: int)
    ensures ClearedBy(x, y, 4, a, b) <==> OnAnyLine(x, y, a, b)
  {
    assert Directions[0] == Line && Directions[1] == Row;
    assert Directions[2] == ULLRDiagonal && Directions[3] == LLURDiagonal;
    assert ClearedBy(x, y, 1, a, b) <==> OnLine(Line, x, y, a, b);
    assert ClearedBy(x, y, 2, a, b) <==> OnLine(Line, x, y, a, b) || OnLine(Row, x, y, a, b);
    assert ClearedBy(x, y, 3, a, b) <==> ClearedBy(x, y, 2, a, b) || OnLine(ULLRDiagonal, x, y, a, b);
  }

  class Grid {
    const grid: array2<Piece>
    const unitDiffStorageValid: array3<bool>
    const unitDiffStorage: array3<int>
    /** The position `grid` holds. */
    ghost var board: Board

    ghost predicate Valid()
      reads this, grid
    {
      grid.Length0 == SIZE && grid.Length1 == SIZE
      && unitDiffStorageValid.Length0 == 2 && unitDiffStorageValid.Length1 == SIZE
      && unitDiffStorageValid.Length2 == SIZE
      && unitDiffStorage.Length0 == 2 && unitDiffStorage.Length1 == SIZE && unitDiffStorage.Length2 == SIZE
      && IsBoard(board)
      && forall x, y :: OnBoard(x, y) ==> grid[x, y] == board[x][y]
    }

    /** Every memo entry marked valid holds the score difference of its piece
        and cell on the current position. */
    ghost predicate MemoSound()
      reads this, grid, unitDiffStorageValid, unitDiffStorage
      requires Valid()
    {
      forall k, x, y :: 0 <= k < 2 && OnBoard(x, y) && unitDiffStorageValid[k, x, y] ==>
        unitDiffStorage[k, x, y] == Delta(board, SlotPiece(k), x, y)
    }

    /** Grid() (gobang.cpp:408-410): an empty board. The memo starts all
        invalid, as the zero-initialized global grid does. */
    constructor ()
      ensures Valid() && MemoSound()
      ensures board == EmptyBoard()
      ensures forall k, x, y :: 0 <= k < 2 && OnBoard(x, y) ==> !unitDiffStorageValid[k, x, y]
    {
      grid := new Piece[SIZE, SIZE]((x, y) => Empty);
      unitDiffStorageValid := new bool[2, SIZE, SIZE]((k, x, y) => false);
      unitDiffStorage := new int[2, SIZE, SIZE]((k, x, y) => 0);
      board := EmptyBoard();
    }

    /** getValueAt (gobang.cpp:167-172). */
    function GetValueAt(x: int, y: int): (r: Piece)
      reads this, grid
      requires Valid()
      ensures r == Get(board, x, y)
    {
      if x >= 0 && y >= 0 && x < SIZE && y < SIZE then grid[x, y] else NotExist
    }

    /** placeAt (gobang.cpp:156-165): on a board cell, writes value and, when
        asked to invalidate and the cell changes, marks invalid the memo of the
        four lines through it; elsewhere nothing changes and the result is
        false. */
    method PlaceAt(x: int, y: int, value: Piece, invalidate: bool) returns (ok: bool)
      requires Valid()
      modifies this, grid, unitDiffStorageValid
      ensures Valid()
      ensures ok <==> OnBoard(x, y)
      ensures board == if ok then Set(old(board), x, y, value) else old(board)
      ensures !(ok && invalidate && old(board)[x][y] != value) ==> unchanged(unitDiffStorageValid)
      ensures ok && invalidate && old(board)[x][y] != value ==>
        forall k, a, b :: 0 <= k < 2 && OnBoard(a, b) ==>
          unitDiffStorageValid[k, a, b] == (old(unitDiffStorageValid[k, a, b]) && !OnAnyLine(x, y, a, b))
      ensures invalidate && old(MemoSound()) ==> MemoSound()
    {
      if x >= 0 && y >= 0 && x < SIZE && y < SIZE {
        ghost var b0 := board;
        if invalidate {
          if grid[x, y] != value {
            InvalidateUnitDiff(x, y);
          }
        }
        grid[x, y] := value;
        board := Set(board, x, y, value);
        ok := true;
        // A memo entry that stays valid lies off the four lines through
        // (x, y), or the cell kept its piece: its difference is unchanged.
        if invalidate && old(MemoSound()) {
          forall k, a, b | 0 <= k < 2 && OnBoard(a, b) && unitDiffStorageValid[k, a, b]
            ensures unitDiffStorage[k, a, b] == Delta(board, SlotPiece(k), a, b)
          {
            if b0[x][y] == value {
              SetSame(b0, x, y);
            } else {
              DeltaLocal(b0, x, y, value, SlotPiece(k), a, b);
            }
          }
        }
      } else {
        ok := false;
      }
    }

    /** vals are the pieces getValueAt reads along line, at the indices
        -1 .. Size(line). */
    ghost predicate Reads(line: ChessboardLine, vals: seq<Piece>)
      reads this, grid
      requires Valid()
    {
      |vals| == Size(line)
      && forall k {:trigger GetValueAt(I(line, k), J(line, k))} :: -1 <= k <= Size(line) ==>
           GetValueAt(I(line, k), J(line, k)) == ValAt(vals, k)
    }

    /** The pieces of a line whose ends are off the board are read along it. */
    lemma ReadLine(line: ChessboardLine) returns (vals: seq<Piece>)
      requires Valid() && EndsOffBoard(line)
      ensures Reads(line, vals) && vals == LineValues(board, line)
    {
      vals := LineValues(board, line);
    }

    /** What is read along the line is LineValues. */
    lemma ReadsLineValues(line: ChessboardLine, vals: seq<Piece>)
      requires Valid() && EndsOffBoard(line) && Reads(line, vals)
      ensures vals == LineValues(board, line)
    {
      var w := LineValues(board, line);
      forall k | 0 <= k < |vals|
        ensures vals[k] == w[k]
      {
        assert GetValueAt(I(line, k), J(line, k)) == ValAt(vals, k);
      }
    }

    /** The inner loop of invalidateUnitDiff (gobang.cpp:284-287): marks
        invalid the memo entries of both pieces on every cell of L. */
    method InvalidateLine(L: ChessboardLine)
      requires Valid() && IsBoardLine(L)
      modifies unitDiffStorageValid
      ensures forall s, a, b :: 0 <= s < 2 && OnBoard(a, b) ==>
        unitDiffStorageValid[s, a, b] == (old(unitDiffStorageValid[s, a, b]) && !Covered(L, Size(L), a, b))
    {
      var t := 0;
      while t < Size(L)
        invariant 0 <= t <= Size(L)
        invariant forall s, a, b :: 0 <= s < 2 && OnBoard(a, b) ==>
          unitDiffStorageValid[s, a, b] == (old(unitDiffStorageValid[s, a, b]) && !Covered(L, t, a, b))
      {
        BoardLineCells(L, t);
        unitDiffStorageValid[0, I(L, t), J(L, t)] := false;
        unitDiffStorageValid[1, I(L, t), J(L, t)] := false;
        forall a, b | OnBoard(a, b)
          ensures Covered(L, t + 1, a, b) <==> Covered(L, t, a, b) || (a == I(L, t) && b == J(L, t))
        {
          CoveredStep(L, t, a, b);
        }
        t := t + 1;
      }
    }

    /** invalidateUnitDiff (gobang.cpp:275-289): marks invalid the memo entries
        of both pieces on every cell of the four lines through (x, y). */
    method InvalidateUnitDiff(x: int, y: int)
      requires Valid() && OnBoard(x, y)
      modifies unitDiffStorageValid
      ensures forall k, a, b :: 0 <= k < 2 && OnBoard(a, b) ==>
        unitDiffStorageValid[k, a, b] == (old(unitDiffStorageValid[k, a, b]) && !OnAnyLine(x, y, a, b))
    {
      var lines := [MakeLine(Line, x, 0), MakeLine(Row, 0, y),
                    MakeLine(ULLRDiagonal, x, y), MakeLine(LLURDiagonal, x, y)];
      assert forall k :: 0 <= k < 4 ==> lines[k] == MakeLine(Directions[k], x, y);
      var k := 0;
      while k < 4
        invariant 0 <= k <= 4
        invariant forall s, a, b :: 0 <= s < 2 && OnBoard(a, b) ==>
          unitDiffStorageValid[s, a, b] == (old(unitDiffStorageValid[s, a, b]) && !ClearedBy(x, y, k, a, b))
      {
        var L := lines[k];
        InvalidateLine(L);
        forall a, b | OnBoard(a, b)
          ensures Covered(L, Size(L), a, b) <==> OnLine(Directions[k], x, y, a, b)
        {
          CoveredAll(Directions[k], x, y, a, b);
        }
        k := k + 1;
      }
      forall a, b
        ensures ClearedBy(x, y, 4, a, b) <==> OnAnyLine(x, y, a, b)
      {
        ClearedAll(x, y, a, b);
      }
    }

    /** SequenceEvaluate (gobang.cpp:218-248): one pass over the line that
        closes each maximal run when the next cell differs, adding getScore of
        its piece, length and open ends, and flagging a non-empty run of
        exactly five. The result is the line's score and flag as the run
        decomposition of Scoring defines them. */
    method SequenceEvaluate(line: ChessboardLine, isFinished: Piece) returns (sum: int, finished: Piece)
      requires Valid() && EndsOffBoard(line)
      ensures sum == LineScore(LineValues(board, line))
      ensures finished == FinishedFrom(LineValues(board, line), 0, isFinished)
    {
      ghost var vals := ReadLine(line);
      var lineSize := Size(line);
      sum := 0;
      finished := isFinished;
      var status := Empty;
      var cnt := 0;
      var leftEdge := -1;
      var i := 0;
      while i < lineSize
        invariant 0 <= i <= lineSize
        invariant ScanVars(status, cnt, sum, finished) == ScanTo(vals, isFinished, i)
        invariant leftEdge == i - cnt - 1
      {
        status, cnt, sum, finished, leftEdge :=
          ScanCell(line, vals, isFinished, i, status, cnt, sum, finished, leftEdge);
        i := i + 1;
      }
      sum, finished := CloseScan(line, vals, isFinished, status, cnt, sum, finished, leftEdge);
    }

    /** The end of SequenceEvaluate (gobang.cpp:240-247): the last run is
        closed against the index Size(line), off the board, with its term and
        flag. That gives the line's score and its flag. */
    method CloseScan(line: ChessboardLine, ghost vals: seq<Piece>, ghost start: Piece,
                     status: Piece, cnt: nat, sum: int, finished: Piece, leftEdge: int)
      returns (sum': int, finished': Piece)
      requires Valid() && EndsOffBoard(line) && Reads(line, vals)
      requires ScanVars(status, cnt, sum, finished) == ScanTo(vals, start, Size(line))
      requires leftEdge == Size(line) - cnt - 1
      ensures sum' == LineScore(vals)
      ensures finished' == FinishedFrom(vals, 0, start)
    {
      ScanComputesScore(vals, start, ValAt(vals, leftEdge));
      var rightEdge := Size(line);
      finished' := finished;
      if status != Empty && cnt == 5 {
        finished' := status;
      }
      sum' := sum + GetScore(status, cnt,
        EdgeSituation(GetValueAt(I(line, leftEdge), J(line, leftEdge)),
                      GetValueAt(I(line, rightEdge), J(line, rightEdge))));
    }

    /** One turn of SequenceEvaluate's loop (gobang.cpp:224-238): the piece
        at index i extends the open run when it is the run's piece, and
        otherwise closes the run, adding its getScore term with the pieces at
        its two ends and flagging a non-empty five, and opens a run of one at
        i. The loop variables go from the scan state before i to the one
        after it. */
    method ScanCell(line: ChessboardLine, ghost vals: seq<Piece>, ghost start: Piece, i: int,
                    status: Piece, cnt: nat, sum: int, finished: Piece, leftEdge: int)
      returns (status': Piece, cnt': nat, sum': int, finished': Piece, leftEdge': int)
      requires Valid() && Reads(line, vals) && 0 <= i < Size(line)
      requires ScanVars(status, cnt, sum, finished) == ScanTo(vals, start, i)
      requires leftEdge == i - cnt - 1
      ensures ScanVars(status', cnt', sum', finished') == ScanTo(vals, start, i + 1)
      ensures leftEdge' == i - cnt'
    {
      var curGrid := GetValueAt(I(line, i), J(line, i));
      ScanToNext(vals, start, i, curGrid, ValAt(vals, leftEdge));
      status', cnt', sum', finished', leftEdge' := status, cnt, sum, finished, leftEdge;
      if status == curGrid {
        cnt' := cnt + 1;
      } else {
        var rightEdge := i;
        if status != Empty && cnt == 5 {
          finished' := status;
        }
        sum' := sum + GetScore(status, cnt,
          EdgeSituation(GetValueAt(I(line, leftEdge), J(line, leftEdge)),
                        GetValueAt(I(line, rightEdge), J(line, rightEdge))));
        status' := curGrid;
        cnt' := 1;
        leftEdge' := i - 1;
      }
    }

    /** EvaluateUnit (gobang.cpp:250-273): the scores of the four lines through
        (x, y), with the flag carried through them in that order. */
    method EvaluateUnit(x: int, y: int, isFinished: Piece) returns (sum: int, finished: Piece)
      requires Valid() && OnBoard(x, y)
      ensures sum == UnitScore(board, x, y)
      ensures finished == UnitFinished(board, x, y, isFinished)
    {
      var lineLine := MakeLine(Line, x, 0);
      var lineRow := MakeLine(Row, 0, y);
      var lineULLR := MakeLine(ULLRDiagonal, x, y);
      var lineLLUR := MakeLine(LLURDiagonal, x, y);
      assert EndsOffBoard(lineLine) by { BoardLineCells(lineLine, 0); }
      assert EndsOffBoard(lineRow) by { BoardLineCells(lineRow, 0); }
      assert EndsOffBoard(lineULLR) by { BoardLineCells(lineULLR, 0); }
      assert EndsOffBoard(lineLLUR) by { BoardLineCells(lineLLUR, 0); }
      var s1, f1 := SequenceEvaluate(lineLine, isFinished);
      var s2, f2 := SequenceEvaluate(lineRow, f1);
      var s3, f3 := SequenceEvaluate(lineULLR, f2);
      var s4, f4 := SequenceEvaluate(lineLLUR, f3);
      sum := s1 + s2 + s3 + s4;
      finished := f4;
    }

    /** EvaluateUnitDiff (gobang.cpp:290-302): the memoized difference the
        piece makes at (x, y). On a miss it scores the unit with the cell empty
        and with the piece, leaves the cell EMPTY and records the difference.
        On a cell that was EMPTY the board is as before and the memo stays sound. */
    method EvaluateUnitDiff(piece: Piece, x: int, y: int) returns (d: int)
      requires Valid() && MemoSound() && OnBoard(x, y) && IsStone(piece)
      modifies this, grid, unitDiffStorageValid, unitDiffStorage
      ensures Valid()
      ensures d == Delta(old(board), piece, x, y)
      ensures board == if old(unitDiffStorageValid[Slot(piece), x, y]) then old(board)
                       else Set(old(board), x, y, Empty)
      ensures unitDiffStorageValid[Slot(piece), x, y] && unitDiffStorage[Slot(piece), x, y] == d
      ensures forall k, a, b :: 0 <= k < 2 && OnBoard(a, b) && (k != Slot(piece) || a != x || b != y) ==>
        unitDiffStorageValid[k, a, b] == old(unitDiffStorageValid[k, a, b])
        && unitDiffStorage[k, a, b] == old(unitDiffStorage[k, a, b])
      ensures old(board)[x][y] == Empty ==> board == old(board) && MemoSound()
    {
      var k := Slot(piece);
      if unitDiffStorageValid[k, x, y] {
        return unitDiffStorage[k, x, y];
      }
      ghost var b := board;
      d := ScoreUnitDiff(piece, x, y);
      unitDiffStorageValid[k, x, y] := true;
      unitDiffStorage[k, x, y] := d;
      if b[x][y] == Empty {
        SetSame(b, x, y);
      }
    }

    /** The miss path of evaluateUnitDiff (gobang.cpp:295-299): score the unit
        with the cell EMPTY, then with the piece on it, then empty the cell
        again. The result is the memoized difference on the position before,
        and the memo is not touched. */
    method ScoreUnitDiff(piece: Piece, x: int, y: int) returns (d: int)
      requires Valid() && OnBoard(x, y) && IsStone(piece)
      modifies this, grid, unitDiffStorageValid
      ensures Valid() && unchanged(unitDiffStorageValid)
      ensures d == Delta(old(board), piece, x, y)
      ensures board == Set(old(board), x, y, Empty)
    {
      ghost var b := board;
      var ok := PlaceAt(x, y, Empty, false);
      var sum1, f1 := EvaluateUnit(x, y, Empty);
      ok := PlaceAt(x, y, piece, false);
      SetTwice(b, x, y, Empty, piece);
      var sum2, f2 := EvaluateUnit(x, y, Empty);
      ok := PlaceAt(x, y, Empty, false);
      SetTwice(b, x, y, piece, Empty);
      d := sum2 - sum1;
      DeltaIsUnitDiff(b, piece, x, y);
    }

    /** minimaxSearch (gobang.cpp:305-375) with DEPTH as D and
        terminateIndicator read as "at least signalAt checks made": tick counts
        the checks, and the check numbered t sees the flag raised when
        t >= signalAt. At depth D the result is the evaluation. Otherwise the
        result lies in [alpha, beta], the position and the memo's soundness are
        restored, and when no check saw the flag the result is the game-tree
        value cut to the window (fail-hard alpha-beta). At depth 0 the move is
        a candidate cell, and one whose value is the result when the result is
        strictly inside the window. */
    method MinimaxSearch(depth: int, D: int, move0: Cell, alpha: int, beta: int, e: int,
                         signalAt: nat, tick0: nat)
      returns (score: int, move: Cell, tick: nat)
      requires Valid() && MemoSound() && 0 <= depth <= D && alpha <= beta
      requires depth == 0 < D ==> Candidates(board) != {}
      modifies this, grid, unitDiffStorageValid, unitDiffStorage
      ensures Valid() && MemoSound() && board == old(board)
      ensures tick0 <= tick
      ensures depth == D ==> score == e && tick == tick0
      ensures depth < D ==> alpha <= score <= beta
      ensures tick <= signalAt ==>
        Clamp(Fin(score), alpha, beta) == Clamp(Value(old(board), depth, D, e), alpha, beta)
      ensures depth != 0 || depth == D ==> move == move0
      ensures depth == 0 < D ==> move in Candidates(old(board))
      ensures depth == 0 < D && tick <= signalAt && alpha < score < beta ==>
        ChildValue(old(board), depth, D, e, move) == Fin(score)
      decreases D - depth, 3
    {
      if depth == D {
        return e, move0, tick0;
      }
      var piece := if depth % 2 == 0 then Bot else Player;
      ghost var B := board;
      // PositionNodeSortMethod: the order the queue is built for.
      var sortMethod := depth % 2;
      var pq := CollectCandidates(piece);
      move := move0;
      if depth == 0 {
        ghost var c :| c in Candidates(B);
        QueuedCell(B, piece, SIZE, 0, c.0, c.1);
        var t := Top(sortMethod, pq);
        QueuedNode(B, piece, SIZE, 0, t);
        move := (t.x, t.y);
      }
      score, move, tick := SearchQueue(depth, D, sortMethod, pq, move, alpha, beta, e, signalAt, tick0);
      ValueWindow(B, depth, D, e, alpha, beta);
    }

    /** The loop of minimaxSearch (gobang.cpp:330-374) over the queue pq of
        the candidates of the position: take the top node, search it, keep
        the better score for the side to move (and at depth 0 its cell), return
        the window's edge as soon as the window closes, and stop after a
        check that sees the flag. The result lies in [alpha, beta] and the
        position is restored; when no check saw the flag it is the cut best
        value of all the candidates, and at depth 0 the move is a candidate
        whose value is the result when the result is strictly inside the
        window. */
    method SearchQueue(depth: int, D: int, sortMethod: int, pq0: set<PositionNode>, move0: Cell,
                       alpha: int, beta: int, e: int, signalAt: nat, tick0: nat)
      returns (score: int, move: Cell, tick: nat)
      requires Valid() && MemoSound() && 0 <= depth < D && alpha <= beta
      requires pq0 == Queued(board, PieceAt(depth), SIZE, 0)
      requires depth == 0 ==> IsCandidate(board, move0.0, move0.1)
      modifies this, grid, unitDiffStorageValid, unitDiffStorage
      ensures Valid() && MemoSound() && board == old(board)
      ensures tick0 <= tick
      ensures alpha <= score <= beta
      ensures tick <= signalAt ==> score == Window(old(board), depth, D, e, Candidates(old(board)), alpha, beta)
      ensures depth != 0 ==> move == move0
      ensures depth == 0 ==> IsCandidate(old(board), move.0, move.1)
      ensures depth == 0 && tick <= signalAt && alpha < score < beta ==>
        ChildValue(old(board), depth, D, e, move) == Fin(score)
      decreases D - depth, 2
    {
      move := move0;
      tick := tick0;
      var selectedScore := if depth % 2 == 0 then alpha else beta;
      ghost var B := board;
      ghost var piece := PieceAt(depth);
      ghost var done: set<Cell> := {};
      assert MaxOf(Children(B, depth, D, e), done) == NegInf && MinOf(Children(B, depth, D, e), done) == PosInf;
      assert selectedScore == Window(B, depth, D, e, done, alpha, beta);
      var pq := pq0;
      // The heap keeps its order until a deeper level resets PositionNodeSortMethod.
      var ordered := true;
      while pq != {}
        invariant Valid() && MemoSound() && board == B
        invariant pq <= pq0
        invariant forall n | n in pq0 :: n in pq || (n.x, n.y) in done
        invariant forall d | d in done :: IsCandidate(B, d.0, d.1)
        invariant tick0 <= tick
        invariant alpha <= selectedScore <= beta
        invariant tick <= signalAt ==> selectedScore == Window(B, depth, D, e, done, alpha, beta)
        invariant depth != 0 ==> move == move0
        invariant depth == 0 ==> IsCandidate(B, move.0, move.1)
        invariant depth == 0 && tick <= signalAt && alpha < selectedScore ==>
          ChildValue(B, depth, D, e, move) == Fin(selectedScore)
        decreases |pq|
      {
        var top;
        if ordered {
          top := Top(sortMethod, pq);
        } else {
          top :| top in pq;
        }
        pq := pq - {top};
        var i, j := top.x, top.y;
        QueuedNode(B, piece, SIZE, 0, top);
        var curScore;
        curScore, tick := SearchChild(depth, D, i, j, alpha, beta, e, top.priority, selectedScore, done, signalAt, tick);
        // BOT raises the score and at the root records the cell; PLAYER lowers it.
        if depth == 0 && selectedScore < curScore {
          move := (i, j);
        }
        selectedScore := Better(depth, selectedScore, curScore);
        if Closes(depth, selectedScore, alpha, beta) {
          return Edge(depth, alpha, beta), move, tick;
        }
        var signaled := tick >= signalAt;
        tick := tick + 1;
        done := done + {(i, j)};
        if signaled {
          break;
        }
        if depth + 1 < D {
          ordered := false;
        }
      }
      if tick <= signalAt && pq == {} {
        QueueDone(B, piece, depth, D, e, done, alpha, beta);
      }
      score := selectedScore;
    }

    /** One turn of minimaxSearch's loop (gobang.cpp:337-361): place the
        stone of the side to move at the candidate (x, y), search the reply
        one level deeper in the window narrowed by selected ([selected, beta]
        for BOT, [alpha, selected] for PLAYER) with the evaluation raised by
        priority, the memoized difference of the move, and take the stone
        back. The position and the memo's soundness are restored. When no
        check saw the flag and selected is the cut best of the children done,
        the better of selected and the score either closes the window, and
        then the whole node cuts to the window's edge, or is the cut best of
        the children with (x, y) added; at a BOT level a score that raised
        selected is the exact value of the move. (The source compares before
        taking the stone back; the comparison touches only locals, so the
        order does not matter.) */
    method SearchChild(depth: int, D: int, x: int, y: int, alpha: int, beta: int, e: int, priority: int,
                       selected: int, ghost done: set<Cell>, signalAt: nat, tick0: nat)
      returns (score: int, tick: nat)
      requires Valid() && MemoSound() && 0 <= depth < D && alpha <= selected <= beta
      requires IsCandidate(board, x, y) && priority == Delta(board, PieceAt(depth), x, y)
      requires forall d | d in done :: IsCandidate(board, d.0, d.1)
      requires tick0 <= signalAt ==> selected == Window(board, depth, D, e, done, alpha, beta)
      modifies this, grid, unitDiffStorageValid, unitDiffStorage
      ensures Valid() && MemoSound() && board == old(board)
      ensures tick0 <= tick
      ensures tick <= signalAt ==> var s := Better(depth, selected, score);
        (Closes(depth, s, alpha, beta) ==>
           Window(old(board), depth, D, e, Candidates(old(board)), alpha, beta) == Edge(depth, alpha, beta))
        && (!Closes(depth, s, alpha, beta) ==> s == Window(old(board), depth, D, e, done + {(x, y)}, alpha, beta))
        && (depth % 2 == 0 && selected < score < beta ==> ChildValue(old(board), depth, D, e, (x, y)) == Fin(score))
      decreases D - depth, 1
    {
      ghost var B := board;
      var lo, hi := if depth % 2 == 0 then selected else alpha, if depth % 2 == 0 then beta else selected;
      score, tick := SearchMove(depth, D, x, y, lo, hi, e + priority, signalAt, tick0);
      if tick <= signalAt {
        ChildSearched(B, depth, D, e, done, x, y, priority, selected, score, alpha, beta, lo, hi);
      }
    }

    /** The place, search and undo of gobang.cpp:340-362: the stone of the
        side to move goes on the EMPTY cell (x, y), the reply is searched one
        level deeper in [lo, hi] from evaluation e, and the cell is emptied
        again with the memo entries of its lines invalidated both times. The
        position and the memo's soundness are restored, and when no check saw
        the flag the score is the value of the position after the move, cut
        to [lo, hi]. */
    method SearchMove(depth: int, D: int, x: int, y: int, lo: int, hi: int, e: int,
                      signalAt: nat, tick0: nat)
      returns (score: int, tick: nat)
      requires Valid() && MemoSound() && 0 <= depth < D && lo <= hi
      requires OnBoard(x, y) && board[x][y] == Empty
      modifies this, grid, unitDiffStorageValid, unitDiffStorage
      ensures Valid() && MemoSound() && board == old(board)
      ensures tick0 <= tick
      ensures tick <= signalAt ==>
        Clamp(Fin(score), lo, hi) == Clamp(Value(Set(old(board), x, y, PieceAt(depth)), depth + 1, D, e), lo, hi)
      decreases D - depth, 0
    {
      ghost var B := board;
      var piece := PieceAt(depth);
      var ok := PlaceAt(x, y, piece, true);
      var childMove;
      assert board == Set(B, x, y, piece);
      score, childMove, tick := MinimaxSearch(depth + 1, D, (x, y), lo, hi, e, signalAt, tick0);
      ok := PlaceAt(x, y, Empty, true);
      SetUndo(B, x, y, piece);
    }

    /** The candidate scan of minimaxSearch (gobang.cpp:313-329): every EMPTY
        cell with a stone among its eight neighbours enters the queue with the
        memoized difference of placing piece there. The position is unchanged
        and the memo stays sound. */
    /** One cell of the scan (gobang.cpp:315-327): an EMPTY cell with a stone
        around it is queued with its memoized difference, any other cell is
        skipped. The board is unchanged and the memo stays sound. */
    method QueueCell(piece: Piece, i: int, j: int) returns (added: set<PositionNode>)
      requires Valid() && MemoSound() && IsStone(piece) && OnBoard(i, j)
      modifies this, grid, unitDiffStorageValid, unitDiffStorage
      ensures Valid() && MemoSound() && board == old(board)
      ensures added == if IsCandidate(board, i, j) then {PositionNode(i, j, Delta(board, piece, i, j))} else {}
    {
      added := {};
      if GetValueAt(i, j) == Empty {
        var flag := StoneAround(i, j);
        if flag {
          var d := EvaluateUnitDiff(piece, i, j);
          added := {PositionNode(i, j, d)};
        }
      }
    }

    method CollectCandidates(piece: Piece) returns (pq: set<PositionNode>)
      requires Valid() && MemoSound() && IsStone(piece)
      modifies this, grid, unitDiffStorageValid, unitDiffStorage
      ensures Valid() && MemoSound() && board == old(board)
      ensures pq == Queued(board, piece, SIZE, 0)
    {
      ghost var B := board;
      pq := {};
      var i := 0;
      while i < SIZE
        invariant 0 <= i <= SIZE
        invariant Valid() && MemoSound() && board == B
        invariant pq == Queued(B, piece, i, 0)
      {
        var j := 0;
        while j < SIZE
          invariant 0 <= j <= SIZE
          invariant Valid() && MemoSound() && board == B
          invariant pq == Queued(B, piece, i, j)
        {
          var added := QueueCell(piece, i, j);
          pq := pq + added;
          j := j + 1;
        }
        i := i + 1;
      }
    }

    /** The neighbour loop of the candidate scan (gobang.cpp:318-325): it
        stops at the first of the eight neighbours that holds a stone, and
        reports whether there was one. */
    method StoneAround(i: int, j: int) returns (flag: bool)
      requires Valid()
      ensures flag <==> exists k :: 0 <= k < 8 && StoneNear(board, i, j, k)
    {
      flag := false;
      var k := 0;
      while k < 8
        invariant 0 <= k <= 8
        invariant forall k' :: 0 <= k' < k ==> !StoneNear(board, i, j, k')
      {
        var value := GetValueAt(i + XShift[k], j + YShift[k]);
        if value == Player || value == Bot {
          assert StoneNear(board, i, j, k);
          flag := true;
          return;
        }
        k := k + 1;
      }
    }

    /** The memset of unitDiffStorageValid at the start of ChoosePosition
        (gobang.cpp:381): every memo entry becomes invalid. */
    method ClearMemo()
      requires Valid()
      modifies unitDiffStorageValid
      ensures Valid() && MemoSound()
      ensures forall k, x, y :: 0 <= k < 2 && OnBoard(x, y) ==> !unitDiffStorageValid[k, x, y]
    {
      forall k, x, y | 0 <= k < 2 && 0 <= x < SIZE && 0 <= y < SIZE {
        unitDiffStorageValid[k, x, y] := false;
      }
    }

    /** One search of ChoosePosition's loop (gobang.cpp:385): minimaxSearch
        at depth 0 with the widest window. Unless the flag was seen, the
        result is the root value at depth D, and a result strictly inside
        the window is the value of the move it leaves in `move`. */
    method SearchRoot(D: int, move0: Cell, signalAt: nat, tick0: nat)
      returns (score: int, move: Cell, tick: nat)
      requires Valid() && MemoSound() && 0 < D && Candidates(board) != {}
      modifies this, grid, unitDiffStorageValid, unitDiffStorage
      ensures Valid() && MemoSound() && board == old(board)
      ensures tick0 <= tick
      ensures Int64Min <= score <= Int64Max
      ensures move in Candidates(old(board))
      ensures tick <= signalAt ==> score == RootValue(old(board), D)
      ensures tick <= signalAt && Int64Min < score < Int64Max ==>
        ChildValue(old(board), 0, D, 0, move) == Fin(score)
    {
      score, move, tick := MinimaxSearch(0, D, move0, Int64Min, Int64Max, 0, signalAt, tick0);
    }

    /** One round of ChoosePosition's deepening (gobang.cpp:385-390): the
        search at depth D, whose move is kept when its result is strictly
        above the best so far. The facts Deepen keeps about the best, its
        depth and its move move from the depths below D to those below
        D + 2. */
    method DeepenStep(D: int, action0: Option<Cell>, best0: int, ghost chosen0: int, move0: Cell,
                      signalAt: nat, tick0: nat)
      returns (action: Option<Cell>, best: int, ghost chosen: int, move: Cell, tick: nat)
      requires Valid() && MemoSound() && 4 <= D && D % 2 == 0 && Candidates(board) != {}
      requires Int64Min <= best0 && (action0.Some? <==> Int64Min < best0)
      requires action0.Some? ==> action0.value in Candidates(board)
      requires tick0 <= signalAt ==> Kept(board, D, action0, best0, chosen0)
      modifies this, grid, unitDiffStorageValid, unitDiffStorage
      ensures Valid() && MemoSound() && board == old(board)
      ensures tick0 <= tick
      ensures Int64Min <= best && (action.Some? <==> Int64Min < best)
      ensures action.Some? ==> action.value in Candidates(old(board))
      ensures tick <= signalAt ==> Kept(old(board), D + 2, action, best, chosen)
    {
      var score;
      score, move, tick := SearchRoot(D, move0, signalAt, tick0);
      if score > best0 {
        if tick <= signalAt {
          BestBelowBounds(board, D);
        }
        action := Some(move);
        best, chosen := score, D;
      } else {
        action, best, chosen := action0, best0, chosen0;
      }
    }

    /** The iterative deepening of ChoosePosition (gobang.cpp:383-391):
        minimaxSearch at depth 0 for DEPTH = 4, 6, 8, 10, keeping the move of
        a search whose result is strictly above the best so far (starting
        from INT64_MIN). A move is kept exactly when the best rose above
        INT64_MIN, and it is a candidate cell. When no check saw the flag,
        the best is BestBelow(board, 12), reached first at depth `chosen`, and the
        move kept has that value there when it lies strictly inside the
        window. */
    method Deepen(signalAt: nat, tick0: nat)
      returns (action: Option<Cell>, best: int, ghost chosen: int, tick: nat)
      requires Valid() && MemoSound() && Candidates(board) != {}
      modifies this, grid, unitDiffStorageValid, unitDiffStorage
      ensures Valid() && MemoSound() && board == old(board)
      ensures tick0 <= tick
      ensures Int64Min <= best && (action.Some? <==> Int64Min < best)
      ensures action.Some? ==> action.value in Candidates(old(board))
      ensures tick <= signalAt ==> best == BestBelow(old(board), 12)
      ensures tick <= signalAt && action.Some? ==> IsDepth(chosen) && best == RootValue(old(board), chosen)
      ensures tick <= signalAt && action.Some? ==>
        forall D' | 4 <= D' < chosen && D' % 2 == 0 :: RootValue(old(board), D') < best
      ensures tick <= signalAt && action.Some? && best < Int64Max ==>
        ChildValue(old(board), 0, chosen, 0, action.value) == Fin(best)
    {
      tick := tick0;
      // evaluationValue
      best, chosen := Int64Min, 4;
      ghost var B := board;
      action := None;
      // Position move: the cell minimaxSearch writes at depth 0.
      var move: Cell := (0, 0);
      var D := 4;
      while D <= 10
        invariant 4 <= D <= 12 && D % 2 == 0
        invariant Valid() && MemoSound() && board == B
        invariant tick0 <= tick
        invariant Int64Min <= best && (action.Some? <==> Int64Min < best)
        invariant action.Some? ==> action.value in Candidates(B)
        invariant tick <= signalAt ==> Kept(B, D, action, best, chosen)
      {
        action, best, chosen, move, tick := DeepenStep(D, action, best, chosen, move, signalAt, tick);
        D := D + 2;
      }
    }

    /** ChoosePosition (gobang.cpp:377-397). As the first mover (cnter == 0)
        BOT plays the centre. Otherwise it clears the memo and runs the
        iterative deepening; no move is chosen when no search rises above
        INT64_MIN. The position is unchanged and a chosen move is a
        candidate cell. When no check saw the flag, `best` is the largest
        root value over the depths, reached first at depth `chosen`, and the move
        chosen has that value there when it lies strictly inside the window. */
    method ChoosePosition(cnter: int, signalAt: nat, tick0: nat)
      returns (action: Option<Cell>, best: int, ghost chosen: int, tick: nat)
      requires Valid() && MemoSound()
      requires cnter != 0 ==> Candidates(board) != {}
      modifies this, grid, unitDiffStorageValid, unitDiffStorage
      ensures Valid() && MemoSound() && board == old(board)
      ensures tick0 <= tick
      ensures cnter == 0 ==> action == Some((7, 7))
      ensures cnter != 0 ==> (action.Some? <==> Int64Min < best)
      ensures cnter != 0 && action.Some? ==> action.value in Candidates(old(board))
      ensures cnter != 0 && tick <= signalAt ==>
        forall D | IsDepth(D) :: RootValue(old(board), D) <= best
      ensures cnter != 0 && tick <= signalAt && action.Some? ==>
        IsDepth(chosen) && best == RootValue(old(board), chosen)
      ensures cnter != 0 && tick <= signalAt && action.Some? ==>
        forall D' | 4 <= D' < chosen && D' % 2 == 0 :: RootValue(old(board), D') < best
      ensures cnter != 0 && tick <= signalAt && action.Some? && best < Int64Max ==>
        ChildValue(old(board), 0, chosen, 0, action.value) == Fin(best)
    {
      ClearMemo();
      if cnter == 0 {
        return Some((7, 7)), Int64Min, 4, tick0;
      }
      action, best, chosen, tick := Deepen(signalAt, tick0);
      if tick <= signalAt {
        BestBelowBounds(board, 12);
      }
    }

    /** judgeFinished (gobang.cpp:399-407): runs EvaluateUnit with the flag on
        every cell in row-major order. The flag stays EMPTY exactly when no
        line through any cell has a non-empty run of exactly five. Otherwise
        each five found overwrites it, so it names the piece of the last five
        on the last line, in EvaluateUnit's order, of the last cell with a
        five: the side the caller announces as the winner. */
    method JudgeFinished() returns (isFinished: Piece)
      requires Valid()
      ensures isFinished == ScanFinished(board, 0, 0, Empty)
      ensures isFinished == Empty <==> !FiveFrom(board, 0, 0)
      ensures isFinished != Empty ==> exists x, y, k, u ::
        LastCellFrom(FiveCells(board), 0, 0, x, y) && LastFiveLine(board, x, y, k)
        && LastFiveAt(ValuesThrough(board, Directions[k], x, y), u)
        && isFinished == ValuesThrough(board, Directions[k], x, y)[u]
    {
      isFinished := Empty;
      var i := 0;
      while i < SIZE
        invariant 0 <= i <= SIZE
        invariant ScanFinished(board, i, 0, isFinished) == ScanFinished(board, 0, 0, Empty)
      {
        var j := 0;
        while j < SIZE
          invariant 0 <= j <= SIZE
          invariant ScanFinished(board, i, j, isFinished) == ScanFinished(board, 0, 0, Empty)
        {
          var sum;
          sum, isFinished := EvaluateUnit(i, j, isFinished);
          j := j + 1;
        }
        assert j == SIZE;
        assert ScanFinished(board, i, SIZE, isFinished) == ScanFinished(board, i + 1, 0, isFinished);
        i := i + 1;
      }
      JudgeFinishedMeaning(board);
      JudgeFinishedWinner(board);
    }
  }
}
