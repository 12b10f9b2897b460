/** What minimaxSearch (gobang.cpp:305-375) computes, stated on board values:
    the cells it considers, the order its priority queue hands them out in,
    and the game-tree value its alpha-beta search approximates. */
module Search {
  import opened Pieces
  import opened Evaluation

  type Cell = (int, int)

  /** XShift and YShift (gobang.cpp:148-149): the offsets of the eight neighbours. */
  const XShift: seq<int> := [-1, -1, -1, 0, 0, 1, 1, 1]
  const YShift: seq<int> := [-1, 0, 1, -1, 1, -1, 0, 1]

  /** Depth 0 places BOT, and the sides alternate from there. */
  function PieceAt(depth: int): Piece
  {
    if depth % 2 == 0 then Bot else Player
  }

  predicate IsStone(p: Piece)
  {
    p == Bot || p == Player
  }

  /** Neighbour k of (i, j) holds a stone. */
  predicate StoneNear(b: Board, i: int, j: int, k: int)
    requires IsBoard(b) && 0 <= k < 8
  {
    IsStone(Get(b, i + XShift[k], j + YShift[k]))
  }

  /** An empty board cell next to a stone: a move the search considers. */
  predicate IsCandidate(b: Board, i: int, j: int)
    requires IsBoard(b)
  {
    OnBoard(i, j) && b[i][j] == Empty && exists k :: 0 <= k < 8 && StoneNear(b, i, j, k)
  }

  ghost function Candidates(b: Board): (cs: set<Cell>)
    requires IsBoard(b)
    ensures forall c :: c in cs <==> IsCandidate(b, c.0, c.1)
  {
    set i, j | 0 <= i < SIZE && 0 <= j < SIZE && IsCandidate(b, i, j) :: (i, j)
  }

  /** A search result: a finite score, or the value of a node without moves
      (no move for the maximizing side is worse than any score, none for the
      minimizing side better). */
  datatype Score = NegInf | Fin(v: int) | PosInf

  predicate Le(a: Score, b: Score)
  {
    a.NegInf? || b.PosInf? || (a.Fin? && b.Fin? && a.v <= b.v)
  }

  function Max(a: Score, b: Score): Score
  {
    if Le(a, b) then b else a
  }

  function Min(a: Score, b: Score): Score
  {
    if Le(a, b) then a else b
  }

  /** A score cut to the window [lo, hi]: what an alpha-beta search that fails
      hard returns. */
  function Clamp(s: Score, lo: int, hi: int): (r: int)
    requires lo <= hi
    ensures lo <= r <= hi
    ensures s.Fin? && lo <= s.v <= hi ==> r == s.v
    ensures s.NegInf? ==> r == lo
    ensures s.PosInf? ==> r == hi
  {
    match s
    case NegInf => lo
    case PosInf => hi
    case Fin(v) => if v < lo then lo else if v > hi then hi else v
  }

  lemma LeTransitive(a: Score, b: Score, c: Score)
    requires Le(a, b) && Le(b, c)
    ensures Le(a, c)
  {
  }

  /** The largest f(c) over cs, NegInf for no cells. */
  ghost function MaxOf(f: Cell -> Score, cs: set<Cell>): Score
    decreases cs
  {
    if cs == {} then NegInf
    else
      var c :| c in cs;
      Max(f(c), MaxOf(f, cs - {c}))
  }

  /** The smallest f(c) over cs, PosInf for no cells. */
  ghost function MinOf(f: Cell -> Score, cs: set<Cell>): Score
    decreases cs
  {
    if cs == {} then PosInf
    else
      var c :| c in cs;
      Min(f(c), MinOf(f, cs - {c}))
  }

  /** MaxOf bounds every f(c) and is reached by some cell w of a non-empty cs. */
  lemma {:induction false} MaxOfIsMax(f: Cell -> Score, cs: set<Cell>) returns (w: Cell)
    ensures forall c :: c in cs ==> Le(f(c), MaxOf(f, cs))
    ensures cs == {} ==> MaxOf(f, cs) == NegInf
    ensures cs != {} ==> w in cs && MaxOf(f, cs) == f(w)
    decreases cs
  {
    w := (0, 0);
    if cs != {} {
      var c :| c in cs && MaxOf(f, cs) == Max(f(c), MaxOf(f, cs - {c}));
      var rest := MaxOf(f, cs - {c});
      var w' := MaxOfIsMax(f, cs - {c});
      w := if cs - {c} != {} && Le(f(c), rest) then w' else c;
      assert Le(rest, Max(f(c), rest)) && Le(f(c), Max(f(c), rest));
      forall d | d in cs
        ensures Le(f(d), MaxOf(f, cs))
      {
        if d != c {
          LeTransitive(f(d), rest, MaxOf(f, cs));
        }
      }
    }
  }

  /** MinOf is below every f(c) and is reached by some cell w of a non-empty cs. */
  lemma {:induction false} MinOfIsMin(f: Cell -> Score, cs: set<Cell>) returns (w: Cell)
    ensures forall c :: c in cs ==> Le(MinOf(f, cs), f(c))
    ensures cs == {} ==> MinOf(f, cs) == PosInf
    ensures cs != {} ==> w in cs && MinOf(f, cs) == f(w)
    decreases cs
  {
    w := (0, 0);
    if cs != {} {
      var c :| c in cs && MinOf(f, cs) == Min(f(c), MinOf(f, cs - {c}));
      var rest := MinOf(f, cs - {c});
      var w' := MinOfIsMin(f, cs - {c});
      w := if cs - {c} == {} || Le(f(c), rest) then c else w';
      assert Le(Min(f(c), rest), rest) && Le(Min(f(c), rest), f(c));
      forall d | d in cs
        ensures Le(MinOf(f, cs), f(d))
      {
        if d != c {
          LeTransitive(MinOf(f, cs), rest, f(d));
        }
      }
    }
  }

  /** Adding a cell to the cells searched: the maximum is the larger of the
      old maximum and the new cell's value, whatever order cells come in. */
  lemma MaxOfAdd(f: Cell -> Score, cs: set<Cell>, c: Cell)
    ensures MaxOf(f, cs + {c}) == Max(MaxOf(f, cs), f(c))
  {
    var w := MaxOfIsMax(f, cs);
    var w' := MaxOfIsMax(f, cs + {c});
    assert w' == c || w' in cs;
  }

  lemma MinOfAdd(f: Cell -> Score, cs: set<Cell>, c: Cell)
    ensures MinOf(f, cs + {c}) == Min(MinOf(f, cs), f(c))
  {
    var w := MinOfIsMin(f, cs);
    var w' := MinOfIsMin(f, cs + {c});
    assert w' == c || w' in cs;
  }

  /** Searching more cells never lowers the maximum nor raises the minimum. */
  lemma MaxOfSubset(f: Cell -> Score, a: set<Cell>, b: set<Cell>)
    requires a <= b
    ensures Le(MaxOf(f, a), MaxOf(f, b))
    ensures Le(MinOf(f, b), MinOf(f, a))
  {
    var w := MaxOfIsMax(f, a);
    var _ := MaxOfIsMax(f, b);
    var u := MinOfIsMin(f, a);
    var _ := MinOfIsMin(f, b);
  }

  /** The minimax value of the position b at `depth` of a search that stops at
      depth D, with evaluation e: at depth D the evaluation, otherwise the best
      child for the side to move, each child being a candidate cell with that
      side's stone on it and e raised by the memoized difference of the move.
      (The board in the decreases clauses of Value, Children and ChildValue
      keeps the verifier from unfolding the whole tree when the depths are
      constants.) */
  ghost function Value(b: Board, depth: int, D: int, e: int): Score
    requires IsBoard(b) && 0 <= depth <= D
    decreases D - depth, 2, b
  {
    if depth == D then Fin(e)
    else if depth % 2 == 0 then MaxOf(Children(b, depth, D, e), Candidates(b))
    else MinOf(Children(b, depth, D, e), Candidates(b))
  }

  /** The children of a position above depth D, as a function of the cell. */
  ghost function Children(b: Board, depth: int, D: int, e: int): Cell -> Score
    requires IsBoard(b) && 0 <= depth < D
    decreases D - depth, 1, b
  {
    (c: Cell) => ChildValue(b, depth, D, e, c)
  }

  /** The value of playing at c: the side to move puts its stone on c and the
      evaluation rises by the memoized difference of that move. */
  ghost function ChildValue(b: Board, depth: int, D: int, e: int, c: Cell): Score
    requires IsBoard(b) && 0 <= depth < D
    decreases D - depth, 0, b
  {
    if OnBoard(c.0, c.1) then
      Value(Set(b, c.0, c.1, PieceAt(depth)), depth + 1, D, e + Delta(b, PieceAt(depth), c.0, c.1))
    else NegInf
  }

  /** A score that agrees, inside [lo, hi], with the position after the move
      at (x, y) agrees there with the value of that child. */
  lemma ChildScore(b: Board, depth: int, D: int, e: int, x: int, y: int, priority: int,
                   s: Score, lo: int, hi: int)
    requires IsBoard(b) && 0 <= depth < D && OnBoard(x, y) && lo <= hi
    requires priority == Delta(b, PieceAt(depth), x, y)
    requires Clamp(s, lo, hi) == Clamp(Value(Set(b, x, y, PieceAt(depth)), depth + 1, D, e + priority), lo, hi)
    ensures Clamp(s, lo, hi) == Clamp(Children(b, depth, D, e)((x, y)), lo, hi)
  {
  }

  /** A step of a maximizing node: selected is the running maximum cut to
      [alpha, beta] and still below beta, and the child searched with the
      window [selected, beta] returned cur. The new selected is again the cut
      maximum, or reaches beta exactly when the cut maximum is beta. */
  lemma MaxNodeStep(m: Score, x: Score, selected: int, cur: int, alpha: int, beta: int)
    requires alpha <= beta && selected == Clamp(m, alpha, beta) && selected < beta
    requires Clamp(Fin(cur), selected, beta) == Clamp(x, selected, beta)
    ensures var s := if selected < cur then cur else selected;
      (s >= beta <==> Clamp(Max(m, x), alpha, beta) == beta)
      && (s < beta ==> s == Clamp(Max(m, x), alpha, beta))
  {
  }

  /** A step of a minimizing node, the mirror image of MaxNodeStep. */
  lemma MinNodeStep(m: Score, x: Score, selected: int, cur: int, alpha: int, beta: int)
    requires alpha <= beta && selected == Clamp(m, alpha, beta) && selected > alpha
    requires Clamp(Fin(cur), alpha, selected) == Clamp(x, alpha, selected)
    ensures var s := if selected > cur then cur else selected;
      (s <= alpha <==> Clamp(Min(m, x), alpha, beta) == alpha)
      && (s > alpha ==> s == Clamp(Min(m, x), alpha, beta))
  {
  }

  /** A cut strictly inside the window is the score itself. */
  lemma ClampInside(s: Score, lo: int, hi: int, v: int)
    requires lo <= hi && Clamp(s, lo, hi) == v && lo < v < hi
    ensures s == Fin(v)
  {
  }

  /** A cut that reaches a bound on part of the children reaches it on all of them. */
  lemma PruneMax(f: Cell -> Score, done: set<Cell>, all: set<Cell>, alpha: int, beta: int)
    requires done <= all && alpha <= beta && Clamp(MaxOf(f, done), alpha, beta) == beta
    ensures Clamp(MaxOf(f, all), alpha, beta) == beta
  {
    MaxOfSubset(f, done, all);
  }

  lemma PruneMin(f: Cell -> Score, done: set<Cell>, all: set<Cell>, alpha: int, beta: int)
    requires done <= all && alpha <= beta && Clamp(MinOf(f, done), alpha, beta) == alpha
    ensures Clamp(MinOf(f, all), alpha, beta) == alpha
  {
    MaxOfSubset(f, done, all);
  }

  /** One child of a maximizing node, searched with the window
      [selected, beta] where selected is the cut maximum of the children done.
      If the larger of selected and the child's result reaches beta, the
      whole node cuts to beta; otherwise that larger value is the cut maximum
      with the child added, and a child that raised it has exactly that value. */
  lemma MaxChild(f: Cell -> Score, done: set<Cell>, all: set<Cell>, c: Cell,
                 selected: int, cur: int, alpha: int, beta: int)
    requires done <= all && c in all && alpha <= selected <= beta
    requires selected == Clamp(MaxOf(f, done), alpha, beta)
    requires Clamp(Fin(cur), selected, beta) == Clamp(f(c), selected, beta)
    ensures var s := if selected < cur then cur else selected;
      (s >= beta ==> Clamp(MaxOf(f, all), alpha, beta) == beta)
      && (s < beta ==> s == Clamp(MaxOf(f, done + {c}), alpha, beta))
      && (selected < cur < beta ==> f(c) == Fin(cur))
  {
    if selected == beta {
      PruneMax(f, done, all, alpha, beta);
    } else {
      MaxNodeStep(MaxOf(f, done), f(c), selected, cur, alpha, beta);
      MaxOfAdd(f, done, c);
      var s := if selected < cur then cur else selected;
      if s >= beta {
        PruneMax(f, done + {c}, all, alpha, beta);
      }
      if selected < cur < beta {
        ClampInside(f(c), selected, beta, cur);
      }
    }
  }

  /** One child of a minimizing node, the mirror image of MaxChild. */
  lemma MinChild(f: Cell -> Score, done: set<Cell>, all: set<Cell>, c: Cell,
                 selected: int, cur: int, alpha: int, beta: int)
    requires done <= all && c in all && alpha <= selected <= beta
    requires selected == Clamp(MinOf(f, done), alpha, beta)
    requires Clamp(Fin(cur), alpha, selected) == Clamp(f(c), alpha, selected)
    ensures var s := if selected > cur then cur else selected;
      (s <= alpha ==> Clamp(MinOf(f, all), alpha, beta) == alpha)
      && (s > alpha ==> s == Clamp(MinOf(f, done + {c}), alpha, beta))
  {
    if selected == alpha {
      PruneMin(f, done, all, alpha, beta);
    } else {
      MinNodeStep(MinOf(f, done), f(c), selected, cur, alpha, beta);
      MinOfAdd(f, done, c);
      var s := if selected > cur then cur else selected;
      if s <= alpha {
        PruneMin(f, done + {c}, all, alpha, beta);
      }
    }
  }

  /** Cells that are all candidates lie among the candidates. */
  lemma CandidateCells(b: Board, cs: set<Cell>)
    requires IsBoard(b) && forall c | c in cs :: IsCandidate(b, c.0, c.1)
    ensures cs <= Candidates(b)
  {
  }

  /** The better of two results for the side to move at depth: the larger
      for BOT (even depths), the smaller for PLAYER. */
  function Better(depth: int, selected: int, cur: int): int
  {
    if depth % 2 == 0 then (if selected < cur then cur else selected)
    else (if selected > cur then cur else selected)
  }

  /** Whether s closes the window [alpha, beta] for the side to move: BOT
      cuts at beta, PLAYER at alpha. */
  predicate Closes(depth: int, s: int, alpha: int, beta: int)
  {
    if depth % 2 == 0 then s >= beta else s <= alpha
  }

  /** The edge of the window a node returns when it cuts. */
  function Edge(depth: int, alpha: int, beta: int): int
  {
    if depth % 2 == 0 then beta else alpha
  }

  /** The best value among the children cs of a node for the side to move,
      cut to [alpha, beta]. */
  ghost function Window(b: Board, depth: int, D: int, e: int, cs: set<Cell>, alpha: int, beta: int): int
    requires IsBoard(b) && 0 <= depth < D && alpha <= beta
  {
    if depth % 2 == 0 then Clamp(MaxOf(Children(b, depth, D, e), cs), alpha, beta)
    else Clamp(MinOf(Children(b, depth, D, e), cs), alpha, beta)
  }

  /** Over all candidates, the cut best child is the node's cut value. */
  lemma ValueWindow(b: Board, depth: int, D: int, e: int, alpha: int, beta: int)
    requires IsBoard(b) && 0 <= depth < D && alpha <= beta
    ensures Clamp(Value(b, depth, D, e), alpha, beta) == Window(b, depth, D, e, Candidates(b), alpha, beta)
  {
  }

  /** One turn of a node's loop: selected is the cut best value of the
      children done, and the candidate c was searched with the window
      narrowed by selected ([selected, beta] for BOT, [alpha, selected] for
      PLAYER), returning cur. If the better of selected and cur closes the
      window, the node's cut value is the window's edge; otherwise that better
      value is the cut best of the children with c added, and at a BOT level
      a cur that raised selected is the exact value of c. */
  lemma ChildStep(b: Board, depth: int, D: int, e: int, done: set<Cell>, c: Cell,
                  selected: int, cur: int, alpha: int, beta: int)
    requires IsBoard(b) && 0 <= depth < D && alpha <= selected <= beta
    requires done <= Candidates(b) && c in Candidates(b)
    requires selected == Window(b, depth, D, e, done, alpha, beta)
    requires depth % 2 == 0 ==>
      Clamp(Fin(cur), selected, beta) == Clamp(Children(b, depth, D, e)(c), selected, beta)
    requires depth % 2 == 1 ==>
      Clamp(Fin(cur), alpha, selected) == Clamp(Children(b, depth, D, e)(c), alpha, selected)
    ensures var s := Better(depth, selected, cur);
      (Closes(depth, s, alpha, beta) ==>
         Window(b, depth, D, e, Candidates(b), alpha, beta) == Edge(depth, alpha, beta))
      && (!Closes(depth, s, alpha, beta) ==> s == Window(b, depth, D, e, done + {c}, alpha, beta))
      && (depth % 2 == 0 && selected < cur < beta ==> ChildValue(b, depth, D, e, c) == Fin(cur))
  {
    var f := Children(b, depth, D, e);
    if depth % 2 == 0 {
      MaxChild(f, done, Candidates(b), c, selected, cur, alpha, beta);
    } else {
      MinChild(f, done, Candidates(b), c, selected, cur, alpha, beta);
    }
  }
  /** ChildStep in the terms of the search: the candidate (x, y) was played
      by the side to move and the position after it searched with the
      narrowed window, returning cur cut to that window. */
  lemma ChildSearched(b: Board, depth: int, D: int, e: int, done: set<Cell>, x: int, y: int, priority: int,
                      selected: int, cur: int, alpha: int, beta: int, lo: int, hi: int)
    requires IsBoard(b) && 0 <= depth < D && alpha <= selected <= beta
    requires IsCandidate(b, x, y) && priority == Delta(b, PieceAt(depth), x, y)
    requires forall d | d in done :: IsCandidate(b, d.0, d.1)
    requires selected == Window(b, depth, D, e, done, alpha, beta)
    requires lo == (if depth % 2 == 0 then selected else alpha)
    requires hi == (if depth % 2 == 0 then beta else selected)
    requires Clamp(Fin(cur), lo, hi) == Clamp(Value(Set(b, x, y, PieceAt(depth)), depth + 1, D, e + priority), lo, hi)
    ensures var s := Better(depth, selected, cur);
      (Closes(depth, s, alpha, beta) ==>
         Window(b, depth, D, e, Candidates(b), alpha, beta) == Edge(depth, alpha, beta))
      && (!Closes(depth, s, alpha, beta) ==> s == Window(b, depth, D, e, done + {(x, y)}, alpha, beta))
      && (depth % 2 == 0 && selected < cur < beta ==> ChildValue(b, depth, D, e, (x, y)) == Fin(cur))
  {
    ChildScore(b, depth, D, e, x, y, priority, Fin(cur), lo, hi);
    CandidateCells(b, done);
    ChildStep(b, depth, D, e, done, (x, y), selected, cur, alpha, beta);
  }


  /** A PositionNode: a candidate cell and its memoized score difference. */
  datatype PositionNode = PositionNode(x: int, y: int, priority: int)

  /** operator< (gobang.cpp:28-48): with sort method 0 (a BOT level) the
      lower priority is "less", with sort method 1 (a PLAYER level) the higher. */
  predicate NodeLess(sortMethod: int, a: PositionNode, b: PositionNode): (r: bool)
    ensures r ==> a.priority != b.priority
  {
    if sortMethod == 0 then a.priority < b.priority else b.priority < a.priority
  }

  /** The node std::priority_queue hands out first: one that no other node of
      the queue is greater than. */
  predicate IsTop(sortMethod: int, pq: set<PositionNode>, t: PositionNode)
  {
    t in pq && forall n :: n in pq ==> !NodeLess(sortMethod, t, n)
  }

  /** operator< is a strict weak order: irreflexive, transitive, and nodes of
      equal priority are interchangeable. */
  lemma NodeLessOrder(sortMethod: int, a: PositionNode, b: PositionNode, c: PositionNode)
    ensures !NodeLess(sortMethod, a, a)
    ensures NodeLess(sortMethod, a, b) && NodeLess(sortMethod, b, c) ==> NodeLess(sortMethod, a, c)
    ensures a.priority == b.priority ==> (NodeLess(sortMethod, a, c) <==> NodeLess(sortMethod, b, c))
  {
  }

  /** The top of a BOT level has the largest priority, that of a PLAYER level
      the smallest. */
  lemma TopIsExtreme(sortMethod: int, pq: set<PositionNode>, t: PositionNode)
    requires IsTop(sortMethod, pq, t)
    ensures sortMethod == 0 ==> forall n :: n in pq ==> n.priority <= t.priority
    ensures sortMethod != 0 ==> forall n :: n in pq ==> t.priority <= n.priority
  {
  }

  /** Every non-empty queue has a top. */
  lemma {:induction false} TopExists(sortMethod: int, pq: set<PositionNode>) returns (t: PositionNode)
    requires pq != {}
    ensures IsTop(sortMethod, pq, t)
    decreases pq
  {
    var n :| n in pq;
    if pq == {n} {
      t := n;
    } else {
      var t' := TopExists(sortMethod, pq - {n});
      t := if NodeLess(sortMethod, t', n) then n else t';
      forall m | m in pq
        ensures !NodeLess(sortMethod, t, m)
      {
        if m != n {
          assert m in pq - {n};
        }
      }
    }
  }

  /** pq.top() (gobang.cpp:331 and 337): a node of the queue no other node
      of it is greater than. */
  method Top(sortMethod: int, pq: set<PositionNode>) returns (t: PositionNode)
    requires pq != {}
    ensures IsTop(sortMethod, pq, t)
  {
    ghost var t0 := TopExists(sortMethod, pq);
    t :| IsTop(sortMethod, pq, t);
  }

  /** The nodes the candidate scan has queued once it reaches (i, j) in
      row-major order: one per candidate cell before it, carrying the
      memoized difference of placing piece there. (The board in the
      decreases clause keeps the verifier from unrolling the whole scan when
      i and j are constants.) */
  ghost function Queued(b: Board, piece: Piece, i: nat, j: nat): set<PositionNode>
    requires IsBoard(b) && j <= SIZE
    decreases i, j, b
  {
    if j == 0 then (if i == 0 then {} else Queued(b, piece, i - 1, SIZE))
    else
      Queued(b, piece, i, j - 1)
      + (if IsCandidate(b, i, j - 1) then {PositionNode(i, j - 1, Delta(b, piece, i, j - 1))} else {})
  }

  /** Every queued node is a candidate cell with its memoized difference. */
  lemma {:induction false} QueuedNode(b: Board, piece: Piece, i: nat, j: nat, n: PositionNode)
    requires IsBoard(b) && j <= SIZE && n in Queued(b, piece, i, j)
    ensures IsCandidate(b, n.x, n.y) && n.priority == Delta(b, piece, n.x, n.y)
    decreases i, j
  {
    if j == 0 {
      QueuedNode(b, piece, i - 1, SIZE, n);
    } else if n in Queued(b, piece, i, j - 1) {
      QueuedNode(b, piece, i, j - 1, n);
    }
  }

  /** Every candidate cell before (i, j) is queued with its memoized
      difference. */
  lemma {:induction false} QueuedCell(b: Board, piece: Piece, i: nat, j: nat, x: int, y: int)
    requires IsBoard(b) && j <= SIZE && IsCandidate(b, x, y) && (x < i || (x == i && y < j))
    ensures PositionNode(x, y, Delta(b, piece, x, y)) in Queued(b, piece, i, j)
    decreases i, j
  {
    if j == 0 {
      QueuedCell(b, piece, i - 1, SIZE, x, y);
    } else if x != i || y != j - 1 {
      QueuedCell(b, piece, i, j - 1, x, y);
    }
  }

  /** When every node of the whole scan has had its cell searched, and only
      candidates have, the cells searched are exactly the candidates, and the
      cut best of their values is the node's cut value. */
  lemma QueueDone(b: Board, piece: Piece, depth: int, D: int, e: int, done: set<Cell>,
                  alpha: int, beta: int)
    requires IsBoard(b) && 0 <= depth < D && alpha <= beta
    requires forall n | n in Queued(b, piece, SIZE, 0) :: (n.x, n.y) in done
    requires forall d | d in done :: IsCandidate(b, d.0, d.1)
    ensures done == Candidates(b)
    ensures Window(b, depth, D, e, done, alpha, beta) == Clamp(Value(b, depth, D, e), alpha, beta)
  {
    forall c | c in Candidates(b)
      ensures c in done
    {
      QueuedCell(b, piece, SIZE, 0, c.0, c.1);
    }
    CandidateCells(b, done);
    ValueWindow(b, depth, D, e, alpha, beta);
  }
}
