# Gobang engine core in Dafny

This project models the engine of a five-in-a-row (gobang) program on a 15 x 15
board. BOT plays against PLAYER. The model covers four parts:

- **`Grid`**: the board array, the memo of per-cell score differences, the line
  scoring, the alpha-beta minimax search with iterative deepening and
  cooperative cancellation, and the end-of-game test.
- **`ChessboardLine`**: the addressing of the row, column and the two diagonals
  through a cell.
- **`ChessboardLineBinaryGrid<N>`**: the bit-rotation query for the run of zero
  bits around a position.
- **`ForbiddenMoveJudger`**: the renju forbidden-move counting.

Files and modules:

| file | module | contents |
|---|---|---|
| `pieces.dfy` | `Pieces` | `ChessPiece`, the board as a value, cell reads and writes |
| `chessboard_line.dfy` | `Lines` | `ChessboardLine`: start cell, `size()`, `i()`, `j()` |
| `scoring.dfy` | `Scoring` | `getScore`, `calculateEdgeSituation`; a line's score and five-flag defined by its maximal runs; the loop state of `SequenceEvaluate` |
| `evaluation.dfy` | `Evaluation` | `EvaluateUnit`'s score and flag and the memoized difference `Delta` on board values; what `judgeFinished` computes |
| `search_spec.dfy` | `Search` | candidate cells, the `PositionNode` order, the game-tree value `Value` and its cut to a window, one step of a node's loop |
| `gobang_grid.dfy` | `GobangGrid` | class `Grid` (arrays `grid`, `unitDiffStorageValid`, `unitDiffStorage`) and its methods, `ChoosePosition`, `judgeFinished` |
| `line_bits.dfy` | `LineBits` | `getContiguousZeroCount` as written and corrected, and the test vectors of `gridTest.cpp` |
| `forbidden_move.dfy` | `ForbiddenMove` | `isForbiddenMove`, `isAnyForbiddenChessChain` and the counting rules |

The class `Grid` keeps the source's arrays. A ghost field `board` holds the
value of `grid`, and `Valid()` ties the two together. `MemoSound()` says that
every memo entry marked valid holds the score difference of its piece and cell
on the current position. Every search method keeps `MemoSound()`.

The cancellation flag `terminateIndicator` is set by a signal handler. Here it
is modelled by two parameters, `signalAt` and `tick`. `tick` counts the checks
of the flag made so far. The check numbered `t` sees the flag when
`t >= signalAt`. When a search ends with `tick <= signalAt`, no check saw the
flag, and the contracts then state the exact result.

How the code differs from the usual description of this engine (the model
follows the code):

- **Best over all depths.** `ChoosePosition` does not keep the move of the
  deepest completed depth. It keeps the move of the search whose result is
  strictly the largest over DEPTH = 4, 6, 8, 10, so on a tie the move of the
  earlier depth stays. A search cut short by the flag
  still takes part in that comparison. Later depths still run, and each stops at
  its first check after the flag is raised.
- **Empty board.** When BOT does not move first and the board has no candidate
  cell, `pq.top()` is read from an empty queue. The model requires a candidate
  to exist.
- **Winner of `judgeFinished`.** Every five met overwrites the flag, so with
  fives on the board the result is the piece of the five met last: the last
  cell in row-major order that has one, then the last of its lines in the
  order LINE, ROW, ULLR, LLUR, then the last five on that line.
- **Flag check order.** The flag is checked only after a child has been searched
  and only when the window did not close.

## Model

| member | source | states |
|---|---|---|
| Pieces.EmptyBoard | gobang.cpp:408-410 | the board `Grid()` starts from: 15 x 15 and every cell EMPTY |
| Pieces.Get | gobang.cpp:167-172 | a read outside the board gives NOT_EXIST |
| Pieces.Set | gobang.cpp:161 | the write changes cell (x, y) to v and no other cell |
| Pieces.SetUndo | gobang.cpp:340-362 | placing a stone and writing back the old value restores the board (the place/undo pairing) |
| Pieces.SetSame | gobang.cpp:295-299 | writing a cell's own value changes nothing |
| Pieces.SetTwice | gobang.cpp:295-299 | of two writes to one cell only the second remains |
| Pieces.SetCommutes | gobang.cpp:156-165 | writes to two different cells commute |
| Lines.MakeLine | gobang.cpp:62-88 | the line of a direction built from a board cell is a board line, and the cell lies on it (corrected anti-diagonal start, see Findings) |
| Lines.MakeLineAsWritten | gobang.cpp:62-88 | as written, the start keeps the line's invariant (row, column, x - y or x + y). From a board cell it is a board line, except on the anti-diagonal with x + y >= SIZE, whose start lands in row SIZE |
| Lines.Size | gobang.cpp:89-107 | a board line has between 1 and SIZE cells. `BoardLineCells` and `BoardLineCovers` state that its indices name exactly its board cells |
| Lines.I | gobang.cpp:108-124 | no contract of its own. `BoardLineCells` states that each index below `size()` gives a board cell on the line and that `IndexOf` recovers the index, and `BoardLineCovers` that every cell of the line is reached |
| Lines.J | gobang.cpp:125-140 | no contract of its own: the column of the cell at an index. With `Lines.I`, `BoardLineCells` and `BoardLineCovers` state that the indices below `size()` name exactly the line's board cells |
| Lines.BoardLineCells | gobang.cpp:89-140 | each index below `size()` names a board cell on the line, `IndexOf` recovers the index, and indices -1 and `size()` are off the board |
| Lines.BoardLineCovers | gobang.cpp:108-140 | every board cell on a board line is reached by one index below `size()` |
| Lines.SameLineSameStart | gobang.cpp:62-88 | two board cells on one line construct the same line |
| Lines.OnLineSymmetric | gobang.cpp:50-55 | lying on a common line of a direction is symmetric |
| Lines.LineThroughCell | gobang.cpp:62-88 | the constructed line holds exactly the cells on that direction's line through the cell |
| Lines.CoveredStep | gobang.cpp:284-287 | one more index covers exactly the cell at that index |
| Lines.CoveredAll | gobang.cpp:283-288 | after `size()` indices the board cells covered are exactly those on the line through (x, y) |
| Lines.AntiDiagonalShape | gobang.cpp:80-104 | the corrected anti-diagonal starts at (x + y, 0) or (14, x + y - 14) with 2 SIZE - 1 - (x + y) cells from the main anti-diagonal on |
| Lines.AntiDiagonalAsWritten | gobang.cpp:80-104 | as written, for x + y >= SIZE the start is in row SIZE (off the board), index k + 1 is the corrected index k, and for x + y == SIZE `size()` adds one more off-board index |
| Evaluation.LineValues | gobang.cpp:223-224 | the pieces `SequenceEvaluate` reads, one per index below `size()` |
| Evaluation.DeltaIsUnitDiff | gobang.cpp:295-301 | the memoized difference is the unit score with the piece placed less the unit score with the cell EMPTY |
| Evaluation.LinesDeltaSame | gobang.cpp:275-289 | two boards whose lines through (x, y) read the same give the same difference |
| Evaluation.LineValuesUnchanged | gobang.cpp:275-289 | a write to a cell off a line leaves that line's pieces unchanged |
| Evaluation.DeltaLocal | gobang.cpp:275-289 | a write to a cell on none of the four lines through (a, c) leaves the memoized value of (a, c) unchanged: what lets `invalidateUnitDiff` clear only those lines |
| Evaluation.DeltaOwnCell | gobang.cpp:295-299 | the memoized value of a cell does not depend on what the cell holds |
| Evaluation.LineFlag | gobang.cpp:229-241 | a line without a five keeps the flag, and a line with one leaves it other than EMPTY |
| Evaluation.UnitFlag | gobang.cpp:250-273 | `EvaluateUnit` keeps the flag exactly when none of the four lines has a five. Otherwise the flag is the piece of the last five on the last of the four lines, taken in the order LINE, ROW, ULLR, LLUR, that has one, because each five overwrites it |
| Evaluation.SomeCellStep | gobang.cpp:401-405 | a row-major scan meets a cell with the property exactly when this cell has it or the rest of the scan does |
| Evaluation.SomeCellRowEnd | gobang.cpp:401-405 | the end of a row continues with the next row, and nothing is past the last row |
| Evaluation.ScanFlag | gobang.cpp:399-407 | the scan keeps the flag when no remaining cell has a five. Otherwise it ends other than EMPTY, with the flag the last such cell in row-major order leaves |
| Evaluation.JudgeFinishedMeaning | gobang.cpp:399-407 | `judgeFinished` returns EMPTY exactly when no line through any cell has a non-empty run of exactly five |
| Evaluation.UnitStepRule | gobang.cpp:401-405 | one cell's `EvaluateUnit` keeps the flag when the cell has no five, and leaves it other than EMPTY when it has one or the flag was set |
| Evaluation.JudgeFinishedWinner | gobang.cpp:399-407 | when some five exists, `judgeFinished` returns the piece of the last five on the last line (LINE, ROW, ULLR, LLUR) of the last cell in row-major order that has a five |
| Evaluation.JudgeFinishedOneSide | gobang.cpp:399-407 | when every five on the board is one side's, `judgeFinished` names that side, and EMPTY without a five: the winner the caller reports at gobang.cpp:444-452 |
| Evaluation.AntiDiagonalValues | gobang.cpp:80-104 | the as-written anti-diagonal reads the corrected line's pieces with NOT_EXIST before them, and after them too when x + y == SIZE |
| Evaluation.AntiDiagonalAsWrittenScoresSame | gobang.cpp:218-248 | on a board without NOT_EXIST cells the as-written anti-diagonal scores and flags the same as the corrected one |
| Scoring.TableAt | gobang.cpp:189-202 | the value is an entry of the table: the run's own entry, or the last one for a run longer than the table |
| Scoring.GetScore | gobang.cpp:174-207 | no contract of its own. `GetScoreSymmetric`, `ScoreBounds`, `ClosedRunScore`, `OpenRunMonotone` and `EdgesMonotone` state its sign, bounds and order |
| Scoring.ScoreBounds | gobang.cpp:174-207 | no run scores more than 1000000 for either side |
| Scoring.EdgeSituation | gobang.cpp:209-216 | the count of open ends is at most 2: 0 exactly when both ends are not EMPTY, 2 exactly when both are |
| Scoring.GetScoreSymmetric | gobang.cpp:174-207 | a PLAYER run scores the negation of the same BOT run, EMPTY and NOT_EXIST runs score 0, BOT scores are non-negative |
| Scoring.ClosedRunScore | gobang.cpp:176-185 | a run closed at both ends scores only when it is a stone run of exactly five, and BOT's scores 1000000 |
| Scoring.OpenRunMonotone | gobang.cpp:186-206 | with an open end a longer run never scores less, and five or more stones score 1000000 |
| Scoring.EdgesMonotone | gobang.cpp:174-207 | another open end never lowers a run's score |
| Scoring.RunLen | gobang.cpp:223-238 | the maximal run from k: at least one cell, all equal, and followed by a different piece or the end |
| Scoring.RunLenUnique | gobang.cpp:223-238 | any maximal run of n equal pieces from k has length `RunLen` |
| Scoring.NoFiveInsideRun | gobang.cpp:229 | no five starts inside a run |
| Scoring.FiveAtRunStart | gobang.cpp:229 | a run is a five exactly when it is not EMPTY and exactly five long |
| Scoring.FinishedFromMeaning | gobang.cpp:229-241 | the flag keeps its value when no five lies ahead, and otherwise is the piece of the last five |
| Scoring.FinishedMeaning | gobang.cpp:229-241 | a line's flag keeps its value without a five, and otherwise is the piece of the five that starts last on the line |
| Scoring.ScanTo | gobang.cpp:223-239 | after i cells the open run is at most i long, and it is empty only before the first cell |
| Scoring.RunFrom | gobang.cpp:227-237 | a maximal run adds its `getScore` term with its two edges and its flag, and the sum goes on after it |
| Scoring.ScanClose | gobang.cpp:227-237 | a different piece closes the open run with the term and flag of that maximal run |
| Scoring.ScanExtend | gobang.cpp:225-226 | the same piece extends the open run |
| Scoring.ScanStepState | gobang.cpp:223-239 | one iteration keeps the relation between the loop variables and the run decomposition |
| Scoring.ScanToState | gobang.cpp:223-239 | the loop variables keep that relation at every index |
| Scoring.ScanToNext | gobang.cpp:224-238 | one iteration computes exactly the next loop variables from the current piece and the cell before the open run |
| Scoring.ScanComputesScore | gobang.cpp:240-247 | closing the last run against the off-line index gives the line's score and flag |
| Scoring.SwapRun | gobang.cpp:174-207 | exchanging BOT and PLAYER keeps every run and negates its term |
| Scoring.SwapScore | gobang.cpp:174-216 | exchanging the sides of a run and of both its edges negates its term |
| Scoring.SwapNegatesFrom | gobang.cpp:218-248 | exchanging the sides negates the sum over the runs from k |
| Scoring.SwapNegates | gobang.cpp:218-248 | the line score is zero-sum: exchanging the sides negates it |
| Scoring.EmptyLineScoresZero | gobang.cpp:218-248 | a line of EMPTY cells scores 0 |
| Scoring.PaddedRun | gobang.cpp:218-248 | each run of a line reappears one place further along in the NOT_EXIST-padded line, with the same edges and term |
| Scoring.PaddedScoreFrom | gobang.cpp:218-248 | the NOT_EXIST padding adds nothing to the sum |
| Scoring.PaddedFlagFrom | gobang.cpp:229-241 | the NOT_EXIST padding never sets the flag |
| Scoring.PaddedLine | gobang.cpp:218-248 | a line padded with NOT_EXIST scores and flags the same as the line |
| Search.Candidates | gobang.cpp:313-329 | the cells the search considers: EMPTY cells with a stone among their eight neighbours |
| Search.Clamp | gobang.cpp:364-371 | fail-hard cut to [lo, hi]: in the window, the value itself inside it, lo for no BOT move, hi for no PLAYER move |
| Search.MaxOfIsMax | gobang.cpp:348-356 | the maximum bounds every child and is reached by one, NegInf without children |
| Search.MinOfIsMin | gobang.cpp:357-361 | the minimum is below every child and reached by one, PosInf without children |
| Search.MaxOfAdd | gobang.cpp:348-356 | adding a child takes the larger of the old maximum and its value, whatever the order |
| Search.MinOfAdd | gobang.cpp:357-361 | adding a child takes the smaller, whatever the order |
| Search.MaxOfSubset | gobang.cpp:336-374 | searching more children never lowers the maximum or raises the minimum |
| Search.ChildScore | gobang.cpp:340-347 | the search of the position after the move is the search of that child |
| Search.MaxNodeStep | gobang.cpp:348-356 | a maximizing step keeps the running value the cut maximum, and it reaches beta exactly when the cut maximum does |
| Search.MinNodeStep | gobang.cpp:357-361 | the minimizing mirror of `MaxNodeStep` |
| Search.ClampInside | gobang.cpp:349-354 | a cut strictly inside the window is the exact value |
| Search.PruneMax | gobang.cpp:364-366 | once the children searched reach beta, all the children do |
| Search.PruneMin | gobang.cpp:368-370 | once the children searched reach alpha, all the children do |
| Search.MaxChild | gobang.cpp:342-366 | one child of a maximizing node: a cut at beta, or the cut maximum with the child added, and a child that raised it has exactly that value |
| Search.MinChild | gobang.cpp:345-370 | the minimizing mirror of `MaxChild` |
| Search.CandidateCells | gobang.cpp:313-329 | cells that are each candidates lie among the candidates |
| Search.ValueWindow | gobang.cpp:305-375 | over all candidates the cut best child is the node's cut value |
| Search.ChildStep | gobang.cpp:337-371 | one turn of a node's loop: the window closes and the node cuts to its edge, or the better value is the cut best with the child added; at a BOT level a raising score is the child's exact value |
| Search.ChildSearched | gobang.cpp:337-371 | `ChildStep` stated for the move placed on the board and searched with the narrowed window |
| Search.NodeLess | gobang.cpp:32-47 | nodes of equal priority are never ordered. `NodeLessOrder` makes it a strict weak order, and `TopIsExtreme` gives the order the queue hands nodes out in |
| Search.NodeLessOrder | gobang.cpp:32-47 | `operator<` is irreflexive and transitive, and nodes of equal priority are interchangeable |
| Search.TopIsExtreme | gobang.cpp:32-47 | the queue's top has the largest priority at a BOT level (sort method 0) and the smallest at a PLAYER level |
| Search.TopExists | gobang.cpp:331 | every non-empty queue has a top |
| Search.Top | gobang.cpp:337 | `pq.top()` returns a node no other node of the queue is greater than |
| Search.QueuedNode | gobang.cpp:313-329 | every queued node is a candidate carrying its memoized difference |
| Search.QueuedCell | gobang.cpp:313-329 | every candidate before the scan position is queued with its memoized difference |
| Search.QueueDone | gobang.cpp:336-374 | when the queue is exhausted the cells searched are exactly the candidates, and their cut best is the node's cut value |
| GobangGrid.BestBelowBounds | gobang.cpp:383-391 | the kept value is at least INT64_MIN, bounds the root values of the depths searched, and is INT64_MIN or one of them |
| GobangGrid.Slot | gobang.cpp:293 | the memo index `piece - PIECE_START` is 0 or 1 and names the piece back |
| GobangGrid.ClearedAll | gobang.cpp:277-288 | the four directions cleared cover exactly the cells on the four lines through (x, y) |
| GobangGrid.Grid.constructor | gobang.cpp:408-413 | an empty board, and a memo with every entry invalid because the global `grid` starts zero-initialized |
| GobangGrid.Grid.GetValueAt | gobang.cpp:167-172 | the piece at (x, y), NOT_EXIST off the board |
| GobangGrid.Grid.PlaceAt | gobang.cpp:156-165 | true exactly on a board cell. The cell is written and nothing else on the board changes. When asked to invalidate and the cell changes, exactly the entries on the four lines through it become invalid. A sound memo stays sound |
| GobangGrid.Grid.ReadLine | gobang.cpp:224-233 | along a line with off-board ends, getValueAt at each index -1 .. size() reads `LineValues`, with NOT_EXIST at both ends |
| GobangGrid.Grid.ReadsLineValues | gobang.cpp:224-233 | `LineValues` is the only sequence read that way along the line |
| GobangGrid.Grid.InvalidateLine | gobang.cpp:284-287 | the entries of both pieces on the line's cells become invalid, and all others keep their state |
| GobangGrid.Grid.InvalidateUnitDiff | gobang.cpp:275-289 | an entry becomes invalid exactly when it lies on one of the four lines through (x, y); other entries keep their state |
| GobangGrid.Grid.SequenceEvaluate | gobang.cpp:218-248 | the sum is the line's score over its maximal runs, and the flag is that of the line's last five |
| GobangGrid.Grid.ScanCell | gobang.cpp:224-238 | one turn of the loop takes the loop variables from the scan state before index i to the state after it. Either the open run grows, or it closes with its `getScore` term and five-flag and a run of one opens |
| GobangGrid.Grid.CloseScan | gobang.cpp:240-247 | closing the last run against the off-board index `size()` gives the line's score and its flag |
| GobangGrid.Grid.EvaluateUnit | gobang.cpp:250-273 | the sum is the scores of the four lines through (x, y), and the flag is carried through them in order |
| GobangGrid.Grid.EvaluateUnitDiff | gobang.cpp:292-302 | the result is the memoized difference on the position before. The entry becomes valid and holds it, and other entries are untouched. On a miss the cell is left EMPTY. On an EMPTY cell the board is as before and the memo stays sound |
| GobangGrid.Grid.ScoreUnitDiff | gobang.cpp:295-299 | the miss path computes the difference on the position before and leaves the cell EMPTY |
| GobangGrid.Grid.MinimaxSearch | gobang.cpp:305-375 | at depth D the evaluation. Otherwise the result lies in [alpha, beta], the board is restored and the memo stays sound. When no check saw the flag, the result is the game-tree value cut to the window. At depth 0 the move is a candidate, and its value is the result when the result is inside the window |
| GobangGrid.Grid.SearchQueue | gobang.cpp:330-374 | the node's loop: the result lies in [alpha, beta]. When no check saw the flag, it is the cut best over all candidates. At depth 0 the move is a candidate whose value is the result when the result is inside the window |
| GobangGrid.Grid.SearchChild | gobang.cpp:337-362 | place, search one level deeper with the narrowed window, and undo. The board and memo soundness are restored, and the `ChildStep` outcome holds |
| GobangGrid.Grid.SearchMove | gobang.cpp:340-362 | place the stone of the side to move, search one level deeper, and take the stone back. The board and memo soundness are restored. When no check saw the flag, the score is the value of the position after the move, cut to the window |
| GobangGrid.Grid.QueueCell | gobang.cpp:315-327 | one cell of the scan: a candidate is queued with its memoized difference, and any other cell adds nothing. The board is unchanged |
| GobangGrid.Grid.CollectCandidates | gobang.cpp:313-329 | the queue holds one node per candidate with its memoized difference, and the board is unchanged |
| GobangGrid.Grid.StoneAround | gobang.cpp:317-325 | true exactly when one of the eight neighbours holds a stone |
| GobangGrid.Grid.ClearMemo | gobang.cpp:381 | every memo entry becomes invalid |
| GobangGrid.Grid.SearchRoot | gobang.cpp:385 | the root search with the widest window: when no check saw the flag, the root value, and a result inside the window is the value of the move |
| GobangGrid.Grid.DeepenStep | gobang.cpp:385-390 | one depth of the deepening loop. A move is held exactly when the best exceeds INT64_MIN, and it is a candidate. When no check saw the flag, `Kept` below D becomes `Kept` below D + 2: the best is the maximum with this depth's root value, and a held move comes from the earliest depth that reached it, since a tie with the best so far does not replace the move |
| GobangGrid.Grid.Deepen | gobang.cpp:383-391 | a move is kept exactly when the best rose above INT64_MIN, and it is a candidate. When no check saw the flag, the best is the largest root value over DEPTH 4..10. It is reached at the depth `chosen`, and every earlier depth's root value is strictly below it, because a tie keeps the earlier move |
| GobangGrid.Grid.ChoosePosition | gobang.cpp:377-397 | the first move is (7, 7). Otherwise the board is unchanged, a chosen move is a candidate, and one is chosen exactly when the best exceeds INT64_MIN. When no check saw the flag, the best bounds every depth's root value. It is reached by the chosen move at the earliest depth that reaches it |
| GobangGrid.Grid.JudgeFinished | gobang.cpp:399-407 | the flag after the row-major scan. It is EMPTY exactly when no line through any cell has a non-empty run of exactly five. Otherwise it is the piece of the last five on the last line of the last cell that has a five |
| LineBits.NewGrid | grid.hpp:15-17 | a new bitset has all N bits set |
| LineBits.ToWord | grid.hpp:20 | `to_ullong` is a 64-bit word |
| LineBits.RotateRight | grid.hpp:23-24 | `rorq` keeps the word length |
| LineBits.TrailingZeros | grid.hpp:25 | `tzcnt`: at most 64 zero bits from bit 0 upward, stopping at a set bit unless it is 64 |
| LineBits.LeadingZeros | grid.hpp:26 | `lzcnt`: at most 64 zero bits from bit 63 downward, stopping at a set bit unless it is 64 |
| LineBits.LowerCorrected | grid.hpp:31 | the downward count is kept when the run stays at or above bit 0. Otherwise it loses the 64 - N unused high bits, and `LowerCorrectedSide` states it is then the ring run's downward side |
| LineBits.GetContiguousZeroCount | grid.hpp:18-40 | as written: a 64-bit count, and each reported position is on the line or -1. `AsWrittenAgreesWithinLine`, `InteriorRun`, `AsWrittenOvercountsUpperWrap` and `AsWrittenAllZero` state where it agrees with the ring run and where it does not |
| LineBits.AssembleRun | grid.hpp:37-39 | both reported positions lie on the line, and the count is the sum of the two sides when that fits in 64 bits. `SidesMakeRun` states when this is the ring run |
| LineBits.ZerosUpFrom | grid.hpp:25 | the zero bits counted upward, ending at a set bit or the top |
| LineBits.ZerosDownFrom | grid.hpp:26 | the zero bits counted downward, ending at a set bit or the bottom |
| LineBits.ContiguousZeroRun | grid.hpp:18-40 | corrected query: N with no bit set, and otherwise the zero run on the ring of N positions through `position` with its two bounding set bits |
| LineBits.SidesMakeRun | grid.hpp:37-39 | two side counts that end at set bits give that ring run |
| LineBits.SideCountsZero | grid.hpp:25-31 | with no bit set, both corrected side counts are N |
| LineBits.SideCountsSet | grid.hpp:25-31 | with a bit set, the corrected side counts are the two sides of the ring run |
| LineBits.UpperCorrectedSide | grid.hpp:25 | the corrected upward count is the upward side of the ring run |
| LineBits.LowerCorrectedSide | grid.hpp:26-31 | the corrected downward count is the downward side of the ring run |
| LineBits.ZeroWordCounts | grid.hpp:25-26 | with no bit set both counts are 64 |
| LineBits.RotatedBit | grid.hpp:23-24 | bit j of the rotated word is bit (position + j) mod 64 of the word |
| LineBits.UpperSide | grid.hpp:25 | tzcnt, less the unused high bits when the run crosses bit N - 1, is the upward side |
| LineBits.LowerSide | grid.hpp:26-31 | lzcnt, less the unused high bits when the run crosses bit 0, is the downward side |
| LineBits.SetCountsBelow64 | grid.hpp:25-26 | with a bit set neither count is 64 |
| LineBits.LowerStays | grid.hpp:26 | a downward run that stops at or above bit 0 bounds the run from below |
| LineBits.LowerStaysZero | grid.hpp:26 | each bit it passes is zero |
| LineBits.LowerWraps | grid.hpp:26-31 | a downward run through bit 0 is the ring run once the 64 - N unused bits are subtracted |
| LineBits.LowerWrapsLow | grid.hpp:26-31 | the bits below `position` that it passes are zero |
| LineBits.LowerWrapsHigh | grid.hpp:26-31 | the bits it passes after wrapping are zero |
| LineBits.RingRunUnique | grid.hpp:37-39 | the ring run through a position is unique |
| LineBits.AsWrittenAgreesWithinLine | grid.hpp:18-40 | with a set bit at or above `position`, the query as written is the ring run |
| LineBits.AgreeWhenUpperStays | grid.hpp:18-40 | with the upward run inside the line, the versions as written and corrected coincide |
| LineBits.LowerBelow | grid.hpp:31 | the corrected downward count is below N |
| LineBits.AsWrittenShape | grid.hpp:32-39 | the query as written takes its general branch once the lower count is below 64 |
| LineBits.AsWrittenOvercountsUpperWrap | grid.hpp:25-31 | with no set bit at or above `position`, the count as written is the ring run plus 64 - N |
| LineBits.UpperWraps | grid.hpp:25 | with no set bit at or above `position`, tzcnt runs past bit N - 1 |
| LineBits.CorrectedShape | grid.hpp:37-39 | with a bit set, the corrected query takes its general branch |
| LineBits.AsWrittenAllZero | grid.hpp:32-36 | with no bit set, the special case is taken only when N == 64; for a shorter line the count as written is 64 + N |
| LineBits.InteriorRun | grid.hpp:18-40 | a zero run strictly inside the line, bounded by set bits q and r, gives r - q - 1, r and q |
| LineBits.InteriorRingRun | grid.hpp:37-39 | a zero run strictly between two set bits is the ring run through any position inside it |
| LineBits.ExampleLowZeros | gridTest.cpp:12-19 | bits 0..2 cleared, queried at 1: 3, 3 and 14 |
| LineBits.LowRun | gridTest.cpp:12-19 | that answer is the ring run |
| LineBits.ExampleSplitZerosAtStart | gridTest.cpp:21-32 | bits 0, 3..7 and 14 cleared, queried at 0: 2, 1 and 13 |
| LineBits.SplitStartRun | gridTest.cpp:21-32 | that answer is the ring run |
| LineBits.ExampleSplitZerosInside | gridTest.cpp:34-36 | the same vector queried at 4: 5, 8 and 2 |
| LineBits.ExampleWrappedZeros | gridTest.cpp:38-47 | bits 0..2, 13 and 14 cleared, queried at 1: 5, 3 and 12 |
| LineBits.WrappedRun | gridTest.cpp:38-47 | that run is the same ring run seen from bit 1 or bit 14 |
| LineBits.WrappedZerosFromTop | grid.hpp:25-31 | the same vector queried at 14: the ring run is 5 long, but the count as written is 54 |
| ForbiddenMove.Matches | forbiddenMove.cpp:40-42 | each class other than None meets exactly one rule's test, and None meets none |
| ForbiddenMove.Threshold | forbiddenMove.cpp:40-42 | the rule needs two directions for threes and for fours, and one for an overline |
| ForbiddenMove.Forbidden | forbiddenMove.cpp:31-46 | a verdict of forbidden needs some direction classified other than None. `ForbiddenMeaning` states the three rules |
| ForbiddenMove.CountIf | forbiddenMove.cpp:33-36 | `count_if`: at most the number of directions, 0 when none matches, all when all do |
| ForbiddenMove.CountAtLeastOne | forbiddenMove.cpp:42 | the count reaches 1 exactly when some direction matches |
| ForbiddenMove.CountAtLeastTwo | forbiddenMove.cpp:40-41 | the count reaches 2 exactly when two different directions match |
| ForbiddenMove.ForbiddenMeaning | forbiddenMove.cpp:40-46 | forbidden exactly when two directions are alive threes, or two are fours of either kind, or one is an overline |
| ForbiddenMove.OneChainForbidsOnlyIfLong | forbiddenMove.cpp:40-46 | with a single classified direction, forbidden exactly when it is an overline |
| ForbiddenMove.Judge | forbiddenMove.cpp:31-46 | the three rules checked in turn give the verdict `Forbidden` |
| ForbiddenMove.ChessboardGrid.constructor | forbiddenMove.h:7 | the grid holds the given board |
| ForbiddenMove.ChessboardGrid.GetCell | forbiddenMove.cpp:25 | `grid.get` reads the cell |
| ForbiddenMove.ChessboardGrid.SetCell | forbiddenMove.cpp:26 | `grid.set` writes one cell |
| ForbiddenMove.ForbiddenMoveJudger.constructor | forbiddenMove.h:9 | the judge refers to the grid it is given |
| ForbiddenMove.ForbiddenMoveJudger.IsAnyForbiddenChessChain | forbiddenMove.cpp:4-14 | the stub classifies no chain: its answer meets none of the three rules |
| ForbiddenMove.ForbiddenMoveJudger.IsForbiddenMove | forbiddenMove.cpp:16-47 | on an EMPTY cell the grid ends as it started, and with the stub classifier the move is never forbidden |

## Left out

- The JSON request and response, `main`, the signal handlers, the subprocess launcher (`exec.c`) and the text renderer are I/O. They are not part of this model.
- `terminateIndicator` is set asynchronously by a signal. It is modelled as the deadline `signalAt` against the count of checks `tick`.
- The memo index `piece - PIECE_START` is modelled by `Slot`. `unitDiffStorage` and the evaluations are unbounded integers, so `long long` overflow is not modelled.
- GobangGrid.Grid.SearchQueue: after a deeper search has reset the global `PositionNodeSortMethod`, the heap holds nodes ordered under the other comparison. From then on any remaining node may come next in the model. Only the first pop of a level is pinned to the top. Results that were not cut short do not depend on the order.
- GobangGrid.Grid.ChoosePosition: the empty queue that `pq.top()` would read on a board without candidates is excluded by a precondition.
- GobangGrid.Grid.SequenceEvaluate: the `isFinished == NULL` case is the flag-carrying case with the flag ignored. The model always carries the flag, and the sum does not depend on it.
- GobangGrid.Grid.SequenceEvaluate: requires a line whose ends are off the board. That holds for every line built from a board cell, both as written and corrected.
- GobangGrid.Grid.InvalidateUnitDiff: uses the corrected anti-diagonal. The as-written start writes to row 15 of `unitDiffStorageValid`, outside the array, and that write is not modelled (see Findings).
- `ChessboardGrid`, `SingleChessChainStatus`, `getSingleChessChainStatus` and `ChessPosition` are not part of this model. The forbidden-move grid is modelled as a board with cell reads and writes. The stub's call to `getSingleChessChainStatus` has no modelled effect.
- ForbiddenMove.ForbiddenMoveJudger.IsForbiddenMove: the renju classification thresholds are not decided by the source (the stub answers `None`), so only the counting rules and the stub's verdict are stated.
- The optional out-parameters `leftOnePosition` and `rightOnePosition` of `getContiguousZeroCount` are always returned, as the fields of `ZeroRun`.

## Findings

| source | as written | input that shows it | evidently intended | confidence | as-written member | corrected member |
|---|---|---|---|---|---|---|
| gobang.cpp:81 | the anti-diagonal shift is `min(SIZE - x, y)`, so for x + y >= SIZE the start is (SIZE, x + y - SIZE), in row 15 off the board | (x, y) = (10, 7): start (15, 2); `invalidateUnitDiff` then writes `unitDiffStorageValid[k][15][2]`. Where that write lands depends on the memory layout; with a 4-byte `ChessPiece` and the fields in declaration order: BOT's write `[0][15][y']` lands on PLAYER's flag `[1][0][y']`, which only forces a recomputation. PLAYER's write `[1][15][y']` with y' >= 2 zeroes a byte of `unitDiffStorage[0][0][0]` or `[0][0][1]`, which can corrupt a BOT memo value that is still marked valid | shift `min(SIZE - 1 - x, y)`, the start (14, x + y - 14) on the board | high, not executed | Lines.AntiDiagonalAsWritten | Lines.AntiDiagonalShape |
| grid.hpp:31 | only the downward count is corrected for the 64 - N unused high bits; the upward count running past bit N - 1 is not | N = 15, bits 0, 1, 2, 13, 14 clear, position 14: count 54 instead of 5 | subtract 64 - N from the upward count when position + count >= N, as line 31 does downward | high, not executed | LineBits.WrappedZerosFromTop | LineBits.ContiguousZeroRun |
| grid.hpp:32 | the all-zero test compares both counts with 64, which for N < 64 never holds once line 31 has corrected the downward count | N = 15, every bit clear, position 0: count 79 | compare against N (no bit set: count N, positions -1) | high, not executed | LineBits.AsWrittenAllZero | LineBits.ContiguousZeroRun |
