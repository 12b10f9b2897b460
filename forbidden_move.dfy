/** The renju forbidden-move judge (forbiddenMove.h, forbiddenMove.cpp).

    The judge places the restricted side's piece, classifies the chain
    through the cell in each of the four directions, takes the piece back,
    and counts the classes: two alive threes, two fours (alive or blocked on
    one side, counted together) or one overline make the move forbidden.
    The per-direction classifier is a stub that answers None, so as written
    no move is ever forbidden. */
module ForbiddenMove {
  import opened Pieces
  import opened Lines

  /** ForbiddenChessChainType: the class of the chain through the placed
      stone in one direction. */
  datatype ChainType = None | AliveThree | AliveFour | OneSideBlockingFour | LongContiguous

  /** The three rules of forbiddenMove.cpp:40-42, each a class test. */
  datatype Rule = Three | Four | Long

  /** The class test of a rule; no class meets two rules, and None meets none. */
  predicate Matches(r: Rule, t: ChainType): (m: bool)
    ensures m <==> t != None && r == (if t == AliveThree then Three else if t == LongContiguous then Long else Four)
  {
    match r
    case Three => t == AliveThree
    case Four => t == AliveFour || t == OneSideBlockingFour
    case Long => t == LongContiguous
  }

  /** How many of the classes meet the rule's test (std::count_if). */
  function CountIf(ts: seq<ChainType>, r: Rule): (n: nat)
    ensures n <= |ts|
    ensures (forall i | 0 <= i < |ts| :: !Matches(r, ts[i])) ==> n == 0
    ensures (forall i | 0 <= i < |ts| :: Matches(r, ts[i])) ==> n == |ts|
  {
    if ts == [] then 0
    else CountIf(ts[..|ts| - 1], r) + (if Matches(r, ts[|ts| - 1]) then 1 else 0)
  }

  /** The threshold each rule needs: two for threes and for fours, one for
      an overline. */
  function Threshold(r: Rule): (k: nat)
    ensures 1 <= k <= 2
    ensures k == 1 <==> r == Long
  {
    match r
    case Three => 2
    case Four => 2
    case Long => 1
  }

  /** The verdict of forbiddenMove.cpp:40-46 on the four classes: a verdict
      needs some class other than None. */
  predicate Forbidden(ts: seq<ChainType>): (f: bool)
    ensures f ==> exists i :: 0 <= i < |ts| && ts[i] != None
  {
    CountAtLeastOne(ts, Three);
    CountAtLeastOne(ts, Four);
    CountAtLeastOne(ts, Long);
    CountIf(ts, Three) >= Threshold(Three) || CountIf(ts, Four) >= Threshold(Four)
    || CountIf(ts, Long) >= Threshold(Long)
  }

  /** Some class meets the rule exactly when the count is at least one. */
  lemma {:induction false} CountAtLeastOne(ts: seq<ChainType>, r: Rule)
    ensures CountIf(ts, r) >= 1 <==> exists i :: 0 <= i < |ts| && Matches(r, ts[i])
    decreases |ts|
  {
    if ts != [] {
      var init := ts[..|ts| - 1];
      CountAtLeastOne(init, r);
      if exists i :: 0 <= i < |init| && Matches(r, init[i]) {
        var i :| 0 <= i < |init| && Matches(r, init[i]);
        assert ts[i] == init[i];
      }
      if exists i :: 0 <= i < |ts| && Matches(r, ts[i]) {
        var i :| 0 <= i < |ts| && Matches(r, ts[i]);
        if i < |init| {
          assert init[i] == ts[i];
        }
      }
    }
  }

  /** Two different directions meet the rule exactly when the count is at
      least two. */
  lemma {:induction false} CountAtLeastTwo(ts: seq<ChainType>, r: Rule)
    ensures CountIf(ts, r) >= 2 <==>
      exists i, j :: 0 <= i < j < |ts| && Matches(r, ts[i]) && Matches(r, ts[j])
    decreases |ts|
  {
    if ts != [] {
      var init := ts[..|ts| - 1];
      var last := |ts| - 1;
      CountAtLeastTwo(init, r);
      CountAtLeastOne(init, r);
      if CountIf(ts, r) >= 2 {
        if CountIf(init, r) >= 2 {
          var i, j :| 0 <= i < j < |init| && Matches(r, init[i]) && Matches(r, init[j]);
          assert ts[i] == init[i] && ts[j] == init[j];
        } else {
          var i :| 0 <= i < |init| && Matches(r, init[i]);
          assert ts[i] == init[i];
          assert Matches(r, ts[last]);
        }
      }
      if exists i, j :: 0 <= i < j < |ts| && Matches(r, ts[i]) && Matches(r, ts[j]) {
        var i, j :| 0 <= i < j < |ts| && Matches(r, ts[i]) && Matches(r, ts[j]);
        assert init[i] == ts[i];
        if j < last {
          assert init[j] == ts[j];
        }
      }
    }
  }

  /** The verdict in terms of the directions: two directions with an alive
      three, two with a four of either kind, or one with an overline. */
  lemma ForbiddenMeaning(ts: seq<ChainType>)
    ensures Forbidden(ts) <==>
      (exists i, j :: 0 <= i < j < |ts| && ts[i] == AliveThree && ts[j] == AliveThree)
      || (exists i, j :: 0 <= i < j < |ts| && Matches(Four, ts[i]) && Matches(Four, ts[j]))
      || (exists i :: 0 <= i < |ts| && ts[i] == LongContiguous)
  {
    CountAtLeastTwo(ts, Three);
    CountAtLeastTwo(ts, Four);
    CountAtLeastOne(ts, Long);
  }

  /** When only one direction holds a chain of any class, the move is
      forbidden exactly when that chain is an overline: a lone three or a
      lone four never forbids. */
  lemma OneChainForbidsOnlyIfLong(ts: seq<ChainType>, k: int)
    requires 0 <= k < |ts|
    requires forall i | 0 <= i < |ts| && i != k :: ts[i] == None
    ensures Forbidden(ts) <==> ts[k] == LongContiguous
  {
    ForbiddenMeaning(ts);
  }

  /** ChessboardGrid: the board the judge shares with its owner. Only the
      cell reads and writes the judge uses are modelled. */
  class ChessboardGrid {
    var board: Board

    constructor (b: Board)
      requires IsBoard(b)
      ensures board == b
    {
      board := b;
    }

    method GetCell(x: int, y: int) returns (p: Piece)
      requires IsBoard(board)
      ensures p == Get(board, x, y)
    {
      p := Get(board, x, y);
    }

    method SetCell(x: int, y: int, p: Piece)
      requires IsBoard(board) && OnBoard(x, y)
      modifies this
      ensures board == Set(old(board), x, y, p)
    {
      board := Set(board, x, y, p);
    }
  }

  /** ForbiddenMoveJudger: holds a reference to the grid it judges on. */
  class ForbiddenMoveJudger {
    const grid: ChessboardGrid

    constructor (grid: ChessboardGrid)
      ensures this.grid == grid
    {
      this.grid := grid;
    }

    /** isAnyForbiddenChessChain (forbiddenMove.cpp:4-14): the chain status
        of the placed stone in one direction is read, but no class is
        decided yet; the answer is None whatever the board holds. */
    method IsAnyForbiddenChessChain(piece: Piece, x: int, y: int, kind: ChessboardLineType)
      returns (t: ChainType)
      requires IsBoard(grid.board)
      ensures !Matches(Three, t) && !Matches(Four, t) && !Matches(Long, t)
    {
      t := None;
    }

    /** isForbiddenMove (forbiddenMove.cpp:16-47). The cell must be empty
        (the assert of line 25). The piece is placed, the four directions
        are classified, the cell is emptied again, and the classes are
        counted against the three rules. The grid ends as it started, the
        verdict is Forbidden of the classes, and with the stub classifier
        it is false. */
    method IsForbiddenMove(piece: Piece, x: int, y: int) returns (forbidden: bool)
      requires IsBoard(grid.board) && OnBoard(x, y) && Get(grid.board, x, y) == Empty
      modifies grid
      ensures grid.board == old(grid.board)
      ensures !forbidden
    {
      var types := new ChainType[4];
      grid.SetCell(x, y, piece);
      var i := 0;
      while i < 4
        invariant 0 <= i <= 4
        invariant IsBoard(grid.board)
        invariant grid.board == Set(old(grid.board), x, y, piece)
        invariant forall k | 0 <= k < i :: !Matches(Three, types[k]) && !Matches(Four, types[k]) && !Matches(Long, types[k])
      {
        types[i] := IsAnyForbiddenChessChain(piece, x, y, Directions[i]);
        i := i + 1;
      }
      grid.SetCell(x, y, Empty);
      SetUndo(old(grid.board), x, y, piece);
      forbidden := Judge(types[..]);
      ForbiddenMeaning(types[..]);
    }
  }

  /** The counting of forbiddenMove.cpp:31-46: each rule in turn, returning
      true at the first one whose count reaches its threshold. */
  method Judge(types: seq<ChainType>) returns (forbidden: bool)
    ensures forbidden == Forbidden(types)
  {
    var threeCount := CountIf(types, Three);
    if threeCount >= 2 {
      return true;
    }
    var fourCount := CountIf(types, Four);
    if fourCount >= 2 {
      return true;
    }
    var longCount := CountIf(types, Long);
    if longCount >= 1 {
      return true;
    }
    return false;
  }
}
