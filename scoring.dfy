/** Scoring a line of the board (gobang.cpp:151-153, 174-248).

    A line is read as the sequence of its pieces. SequenceEvaluate splits it
    into maximal runs of one piece and adds, for each run, getScore of the
    run's piece, its length and the number of empty cells just outside it; a
    cell outside the line reads NOT_EXIST and so closes that end. Along the way
    it reports the piece of each non-empty run of exactly five. */
module Scoring {
  import opened Pieces

  /** Score_E1: one open end. */
  const ScoreE1: seq<int> := [0, 1, 5, 25, 1250, 1000000]
  /** Score_E2: two open ends. */
  const ScoreE2: seq<int> := [0, 5, 20, 200, 1500, 1000000]

  /** table[cnt], with every count from SCORE_LENGTH on reading the last entry. */
  /** The table entry of a run of cnt stones; a longer run than the table
      covers takes its last entry. */
  function TableAt(table: seq<int>, cnt: nat): (r: int)
    requires |table| > 0
    ensures r in table
  {
    if cnt >= |table| then table[|table| - 1] else table[cnt]
  }

  /** getScore (gobang.cpp:174-207): a BOT run scores its table entry, a
      PLAYER run the negation, any other run nothing (GetScoreSymmetric), and
      no term is larger in size than the score of a five (ScoreBounds). */
  function GetScore(status: Piece, cnt: nat, edgeSituation: nat): int
  {
    var base :=
      if edgeSituation == 0 then (if cnt == 5 then ScoreE2[5] else 0)
      else if edgeSituation == 1 then TableAt(ScoreE1, cnt)
      else TableAt(ScoreE2, cnt);
    match status
    case Bot => base
    case Player => -base
    case _ => 0
  }

  /** calculateEdgeSituation (gobang.cpp:209-216): the number of open ends. */
  function EdgeSituation(leftEdgeStatus: Piece, rightEdgeStatus: Piece): (cnt: nat)
    ensures cnt <= 2
    ensures cnt == 0 <==> leftEdgeStatus != Empty && rightEdgeStatus != Empty
    ensures cnt == 2 <==> leftEdgeStatus == Empty && rightEdgeStatus == Empty
  {
    (if leftEdgeStatus == Empty then 1 else 0) + (if rightEdgeStatus == Empty then 1 else 0)
  }

  /** The player's runs score the negation of the bot's, and a run of any
      other piece scores nothing. */
  lemma GetScoreSymmetric(cnt: nat, e: nat)
    ensures GetScore(Player, cnt, e) == -GetScore(Bot, cnt, e)
    ensures GetScore(Empty, cnt, e) == 0 && GetScore(NotExist, cnt, e) == 0
    ensures GetScore(Bot, cnt, e) >= 0
  {
  }

  /** No run scores more than a five for either side. */
  lemma ScoreBounds(p: Piece, cnt: nat, e: nat)
    ensures -1000000 <= GetScore(p, cnt, e) <= 1000000
  {
  }

  /** A run closed at both ends scores only when it is exactly five long. */
  lemma ClosedRunScore(p: Piece, cnt: nat)
    ensures GetScore(p, cnt, 0) != 0 <==> (p == Bot || p == Player) && cnt == 5
    ensures GetScore(Bot, 5, 0) == 1000000
  {
  }

  /** With an open end, a longer run never scores less, and five or more
      stones score 1000000. */
  lemma OpenRunMonotone(c1: nat, c2: nat, e: nat)
    requires 1 <= e && c1 <= c2
    ensures GetScore(Bot, c1, e) <= GetScore(Bot, c2, e)
    ensures c2 >= 5 ==> GetScore(Bot, c2, e) == 1000000
  {
  }

  /** Another open end never scores less. */
  lemma EdgesMonotone(cnt: nat, e1: nat, e2: nat)
    requires e1 <= e2 <= 2
    ensures GetScore(Bot, cnt, e1) <= GetScore(Bot, cnt, e2)
  {
  }

  /** The piece at index k, NOT_EXIST outside the line. */
  function ValAt(vals: seq<Piece>, k: int): Piece
  {
    if 0 <= k < |vals| then vals[k] else NotExist
  }

  /** The length of the maximal run that starts at k. */
  function RunLen(vals: seq<Piece>, k: nat): (n: nat)
    requires k < |vals|
    ensures 1 <= n && k + n <= |vals|
    ensures forall t :: k <= t < k + n ==> vals[t] == vals[k]
    ensures k + n == |vals| || vals[k + n] != vals[k]
    decreases |vals| - k
  {
    if k + 1 < |vals| && vals[k + 1] == vals[k] then 1 + RunLen(vals, k + 1) else 1
  }

  /** A run of n equal pieces from k that is not followed by one more has
      length RunLen. */
  lemma RunLenUnique(vals: seq<Piece>, k: nat, n: nat)
    requires 1 <= n && k + n <= |vals|
    requires forall t :: k <= t < k + n ==> vals[t] == vals[k]
    requires k + n == |vals| || vals[k + n] != vals[k]
    ensures RunLen(vals, k) == n
  {
  }

  /** The term SequenceEvaluate adds for the run of n pieces from s. */
  function RunScore(vals: seq<Piece>, s: nat, n: nat): int
    requires s < |vals|
  {
    GetScore(vals[s], n, EdgeSituation(ValAt(vals, s - 1), ValAt(vals, s + n)))
  }

  /** The sum over the maximal runs from the run start k. */
  function ScoreFrom(vals: seq<Piece>, k: nat): int
    requires k <= |vals|
    decreases |vals| - k
  {
    if k == |vals| then 0
    else
      var n := RunLen(vals, k);
      RunScore(vals, k, n) + ScoreFrom(vals, k + n)
  }

  function LineScore(vals: seq<Piece>): int
  {
    ScoreFrom(vals, 0)
  }

  /** The finished flag after the runs from k, starting from acc: each
      non-empty run of exactly five overwrites it. */
  function FinishedFrom(vals: seq<Piece>, k: nat, acc: Piece): Piece
    requires k <= |vals|
    decreases |vals| - k
  {
    if k == |vals| then acc
    else
      var n := RunLen(vals, k);
      FinishedFrom(vals, k + n, if vals[k] != Empty && n == 5 then vals[k] else acc)
  }

  /** A maximal run of exactly five equal non-empty pieces starts at s. */
  predicate IsFiveAt(vals: seq<Piece>, s: int)
  {
    0 <= s && s + 5 <= |vals| && vals[s] != Empty
    && (s == 0 || vals[s - 1] != vals[s])
    && (forall t :: s <= t < s + 5 ==> vals[t] == vals[s])
    && (s + 5 == |vals| || vals[s + 5] != vals[s])
  }

  predicate HasFive(vals: seq<Piece>)
  {
    exists s :: 0 <= s < |vals| && IsFiveAt(vals, s)
  }

  /** The last five of the line starts at u. */
  predicate LastFiveAt(vals: seq<Piece>, u: int)
  {
    IsFiveAt(vals, u) && forall v :: u < v < |vals| ==> !IsFiveAt(vals, v)
  }

  /** k starts a run: it is the first index or follows a different piece. */
  predicate RunStart(vals: seq<Piece>, k: nat)
  {
    k <= |vals| && (k == 0 || k == |vals| || vals[k - 1] != vals[k])
  }

  /** Between a run start and the end of its run no other run starts. */
  lemma NoFiveInsideRun(vals: seq<Piece>, k: nat, s: int)
    requires k < |vals| && k < s < k + RunLen(vals, k)
    ensures !IsFiveAt(vals, s)
  {
    assert vals[s - 1] == vals[s];
  }

  /** The run from k is a five exactly when it is non-empty and five long. */
  lemma FiveAtRunStart(vals: seq<Piece>, k: nat)
    requires k < |vals| && RunStart(vals, k)
    ensures IsFiveAt(vals, k) <==> vals[k] != Empty && RunLen(vals, k) == 5
  {
    if IsFiveAt(vals, k) {
      RunLenUnique(vals, k, 5);
    }
  }

  /** The flag keeps acc when no five starts at or after the run start k
      (u == -1), and otherwise is the piece of the last five, which starts at u. */
  lemma {:induction false} FinishedFromMeaning(vals: seq<Piece>, k: nat, acc: Piece) returns (u: int)
    requires RunStart(vals, k)
    ensures u == -1 ==>
      FinishedFrom(vals, k, acc) == acc && forall s :: k <= s ==> !IsFiveAt(vals, s)
    ensures u != -1 ==>
      k <= u && IsFiveAt(vals, u) && FinishedFrom(vals, k, acc) == vals[u]
      && forall v :: u < v ==> !IsFiveAt(vals, v)
    decreases |vals| - k
  {
    if k == |vals| {
      u := -1;
    } else {
      var n := RunLen(vals, k);
      var five := vals[k] != Empty && n == 5;
      var u' := FinishedFromMeaning(vals, k + n, if five then vals[k] else acc);
      FiveAtRunStart(vals, k);
      forall s | k < s < k + n
        ensures !IsFiveAt(vals, s)
      {
        NoFiveInsideRun(vals, k, s);
      }
      if u' != -1 {
        u := u';
      } else if five {
        u := k;
      } else {
        u := -1;
      }
    }
  }

  /** judgeFinished's view of one line: the flag stays acc exactly when the
      line has no non-empty run of exactly five, and otherwise names the piece
      of the last such run. */
  lemma FinishedMeaning(vals: seq<Piece>, acc: Piece)
    ensures !HasFive(vals) ==> FinishedFrom(vals, 0, acc) == acc
    ensures HasFive(vals) ==>
      exists u :: LastFiveAt(vals, u) && FinishedFrom(vals, 0, acc) == vals[u]
  {
    var u := FinishedFromMeaning(vals, 0, acc);
    if u != -1 {
      assert IsFiveAt(vals, u) && u < |vals|;
    }
  }

  /** SequenceEvaluate's loop variables: the piece and length of the open
      run, the sum of the terms of the runs closed so far and the flag. */
  datatype ScanVars = ScanVars(status: Piece, cnt: nat, sum: int, finished: Piece)

  /** The term and flag of closing the open run of v just before index i. */
  function CloseRun(vals: seq<Piece>, v: ScanVars, i: int): ScanVars
  {
    v.(sum := v.sum + GetScore(v.status, v.cnt, EdgeSituation(ValAt(vals, i - v.cnt - 1), ValAt(vals, i))),
       finished := if v.status != Empty && v.cnt == 5 then v.status else v.finished)
  }

  /** One iteration of SequenceEvaluate's loop at index i. */
  function ScanStep(vals: seq<Piece>, v: ScanVars, i: int): ScanVars
    requires 0 <= i < |vals|
  {
    if vals[i] == v.status then v.(cnt := v.cnt + 1)
    else CloseRun(vals, v, i).(status := vals[i], cnt := 1)
  }

  /** The loop variables after the first i pieces, starting from flag `start`. */
  function ScanTo(vals: seq<Piece>, start: Piece, i: int): (v: ScanVars)
    requires 0 <= i <= |vals|
    ensures v.cnt <= i && (v.cnt == 0 <==> i == 0)
    decreases i
  {
    if i == 0 then ScanVars(Empty, 0, 0, start)
    else ScanStep(vals, ScanTo(vals, start, i - 1), i - 1)
  }

  /** What the loop variables say about the runs: the open run of cnt pieces
      of status ends at i, sum holds the terms of the runs closed before it and
      finished their flag. */
  ghost predicate ScanState(vals: seq<Piece>, start: Piece, i: int, v: ScanVars)
  {
    0 <= v.cnt <= i <= |vals|
    && (v.cnt == 0 ==> i == 0 && v.status == Empty)
    && (v.cnt > 0 ==> RunStart(vals, i - v.cnt) && forall t :: i - v.cnt <= t < i ==> vals[t] == v.status)
    && v.sum + ScoreFrom(vals, i - v.cnt) == ScoreFrom(vals, 0)
    && FinishedFrom(vals, i - v.cnt, v.finished) == FinishedFrom(vals, 0, start)
  }

  /** A maximal run of n pieces from s contributes its term and flag, and the
      sum and the flag go on from s + n. */
  lemma RunFrom(vals: seq<Piece>, s: nat, n: nat, acc: Piece)
    requires 1 <= n && s + n <= |vals|
    requires forall t :: s <= t < s + n ==> vals[t] == vals[s]
    requires s + n == |vals| || vals[s + n] != vals[s]
    ensures ScoreFrom(vals, s)
            == GetScore(vals[s], n, EdgeSituation(ValAt(vals, s - 1), ValAt(vals, s + n))) + ScoreFrom(vals, s + n)
    ensures FinishedFrom(vals, s, acc)
            == FinishedFrom(vals, s + n, if vals[s] != Empty && n == 5 then vals[s] else acc)
  {
    RunLenUnique(vals, s, n);
  }

  /** A different piece closes the open run, whose term and flag are then
      those of the maximal run from i - cnt. */
  lemma ScanClose(vals: seq<Piece>, start: Piece, i: int, v: ScanVars)
    requires ScanState(vals, start, i, v) && i < |vals| && vals[i] != v.status
    ensures ScanState(vals, start, i + 1, CloseRun(vals, v, i).(status := vals[i], cnt := 1))
  {
    if v.cnt > 0 {
      RunFrom(vals, i - v.cnt, v.cnt, v.finished);
    }
  }

  /** The same piece extends the open run. */
  lemma ScanExtend(vals: seq<Piece>, start: Piece, i: int, v: ScanVars)
    requires ScanState(vals, start, i, v) && i < |vals| && vals[i] == v.status
    ensures ScanState(vals, start, i + 1, v.(cnt := v.cnt + 1))
  {
  }

  /** One iteration of the loop keeps ScanState. */
  lemma ScanStepState(vals: seq<Piece>, start: Piece, i: int, v: ScanVars)
    requires 0 <= i < |vals| && v == ScanTo(vals, start, i) && ScanState(vals, start, i, v)
    ensures ScanState(vals, start, i + 1, ScanTo(vals, start, i + 1))
  {
    if vals[i] == v.status {
      ScanExtend(vals, start, i, v);
    } else {
      ScanClose(vals, start, i, v);
    }
  }

  /** The loop variables keep ScanState at every index. */
  lemma {:induction false} ScanToState(vals: seq<Piece>, start: Piece, i: int)
    requires 0 <= i <= |vals|
    ensures ScanState(vals, start, i, ScanTo(vals, start, i))
    decreases i
  {
    if i > 0 {
      ScanToState(vals, start, i - 1);
      ScanStepState(vals, start, i - 1, ScanTo(vals, start, i - 1));
    }
  }

  /** One more index: the loop variables the body of SequenceEvaluate computes
      from the piece cur at i and the piece left before the open run. */
  lemma ScanToNext(vals: seq<Piece>, start: Piece, i: int, cur: Piece, left: Piece)
    requires 0 <= i < |vals| && cur == vals[i]
    requires left == ValAt(vals, i - ScanTo(vals, start, i).cnt - 1)
    ensures var v := ScanTo(vals, start, i);
      ScanTo(vals, start, i + 1)
      == if cur == v.status then v.(cnt := v.cnt + 1)
         else ScanVars(cur, 1, v.sum + GetScore(v.status, v.cnt, EdgeSituation(left, cur)),
                       if v.status != Empty && v.cnt == 5 then v.status else v.finished)
  {
  }

  /** SequenceEvaluate's result: closing the last run, whose right end is
      off the line, gives the line's score and its flag. */
  lemma ScanComputesScore(vals: seq<Piece>, start: Piece, left: Piece)
    requires left == ValAt(vals, |vals| - ScanTo(vals, start, |vals|).cnt - 1)
    ensures var v := ScanTo(vals, start, |vals|);
      v.sum + GetScore(v.status, v.cnt, EdgeSituation(left, NotExist)) == LineScore(vals)
      && (if v.status != Empty && v.cnt == 5 then v.status else v.finished) == FinishedFrom(vals, 0, start)
  {
    var v := ScanTo(vals, start, |vals|);
    ScanToState(vals, start, |vals|);
    if v.cnt > 0 {
      RunFrom(vals, |vals| - v.cnt, v.cnt, v.finished);
    }
  }

  /** Bot and player exchanged. */
  function Swap(p: Piece): Piece
  {
    match p
    case Bot => Player
    case Player => Bot
    case _ => p
  }

  function SwapAll(vals: seq<Piece>): (r: seq<Piece>)
    ensures |r| == |vals| && forall k :: 0 <= k < |vals| ==> r[k] == Swap(vals[k])
  {
    seq(|vals|, k requires 0 <= k < |vals| => Swap(vals[k]))
  }

  /** w is vals with the sides exchanged. */
  predicate Swapped(w: seq<Piece>, vals: seq<Piece>)
  {
    |w| == |vals| && forall k :: 0 <= k < |vals| ==> w[k] == Swap(vals[k])
  }

  /** Exchanging the sides keeps every run and negates its term. */
  lemma SwapRun(w: seq<Piece>, vals: seq<Piece>, k: nat)
    requires Swapped(w, vals) && k < |vals|
    ensures RunLen(w, k) == RunLen(vals, k)
    ensures RunScore(w, k, RunLen(vals, k)) == -RunScore(vals, k, RunLen(vals, k))
  {
    var n := RunLen(vals, k);
    forall t | k <= t < k + n
      ensures w[t] == w[k]
    {
    }
    if k + n < |vals| {
      SwapInjective(vals[k + n], vals[k]);
    }
    RunLenUnique(w, k, n);
    var l, r := ValAt(vals, k - 1), ValAt(vals, k + n);
    assert ValAt(w, k - 1) == Swap(l) && ValAt(w, k + n) == Swap(r);
    SwapScore(vals[k], n, l, r);
  }

  /** Swap is one-to-one. */
  lemma SwapInjective(p: Piece, q: Piece)
    requires p != q
    ensures Swap(p) != Swap(q)
  {
  }

  /** Exchanging the sides of a run and of its two ends negates its term. */
  lemma SwapScore(p: Piece, n: nat, l: Piece, r: Piece)
    ensures GetScore(Swap(p), n, EdgeSituation(Swap(l), Swap(r))) == -GetScore(p, n, EdgeSituation(l, r))
  {
    assert EdgeSituation(Swap(l), Swap(r)) == EdgeSituation(l, r);
    GetScoreSymmetric(n, EdgeSituation(l, r));
  }

  /** The evaluation is zero-sum: exchanging the two sides negates a line's score. */
  lemma {:induction false} SwapNegatesFrom(w: seq<Piece>, vals: seq<Piece>, k: nat)
    requires Swapped(w, vals) && k <= |vals|
    ensures ScoreFrom(w, k) == -ScoreFrom(vals, k)
    decreases |vals| - k
  {
    if k < |vals| {
      SwapRun(w, vals, k);
      SwapNegatesFrom(w, vals, k + RunLen(vals, k));
    }
  }

  lemma SwapNegates(vals: seq<Piece>)
    ensures LineScore(SwapAll(vals)) == -LineScore(vals)
  {
    SwapNegatesFrom(SwapAll(vals), vals, 0);
  }

  /** A line whose cells all read EMPTY scores nothing. */
  lemma EmptyLineScoresZero(vals: seq<Piece>)
    requires forall k :: 0 <= k < |vals| ==> vals[k] == Empty
    ensures LineScore(vals) == 0
  {
    if |vals| > 0 {
      RunLenUnique(vals, 0, |vals|);
      assert ScoreFrom(vals, |vals|) == 0;
      assert ScoreFrom(vals, 0) == RunScore(vals, 0, |vals|) + ScoreFrom(vals, |vals|);
    }
  }

  /** A line read with one NOT_EXIST cell before it and possibly one after it. */
  function Padded(vals: seq<Piece>, tail: seq<Piece>): seq<Piece>
  {
    [NotExist] + vals + tail
  }

  /** w is vals with NOT_EXIST before it and `extra` (0 or 1) NOT_EXIST after it. */
  predicate PaddedBy(w: seq<Piece>, vals: seq<Piece>, extra: nat)
  {
    extra <= 1 && |w| == |vals| + 1 + extra && w[0] == NotExist
    && (forall k :: 1 <= k <= |vals| ==> w[k] == vals[k - 1])
    && (extra == 1 ==> w[|vals| + 1] == NotExist)
  }

  /** Each run of vals reappears one place further along in the padded line,
      with the same edges. */
  lemma PaddedRun(w: seq<Piece>, vals: seq<Piece>, extra: nat, k: nat)
    requires PaddedBy(w, vals, extra) && k < |vals| && vals[|vals| - 1] != NotExist
    ensures RunLen(w, k + 1) == RunLen(vals, k)
    ensures RunScore(w, k + 1, RunLen(vals, k)) == RunScore(vals, k, RunLen(vals, k))
  {
    var n := RunLen(vals, k);
    RunLenUnique(w, k + 1, n);
    assert ValAt(w, k) == ValAt(vals, k - 1);
    assert ValAt(w, k + 1 + n) == ValAt(vals, k + n);
  }

  /** The padding cells only add runs of NOT_EXIST, which score nothing. */
  lemma {:induction false} PaddedScoreFrom(w: seq<Piece>, vals: seq<Piece>, extra: nat, k: nat)
    requires PaddedBy(w, vals, extra) && k <= |vals| && |vals| > 0 && vals[|vals| - 1] != NotExist
    ensures ScoreFrom(w, k + 1) == ScoreFrom(vals, k)
    decreases |vals| - k
  {
    if k == |vals| {
      if extra == 1 {
        RunLenUnique(w, k + 1, 1);
      }
    } else {
      PaddedRun(w, vals, extra, k);
      PaddedScoreFrom(w, vals, extra, k + RunLen(vals, k));
    }
  }

  /** The padding cells only add runs of NOT_EXIST, which are never a five. */
  lemma {:induction false} PaddedFlagFrom(w: seq<Piece>, vals: seq<Piece>, extra: nat, k: nat, acc: Piece)
    requires PaddedBy(w, vals, extra) && k <= |vals| && |vals| > 0 && vals[|vals| - 1] != NotExist
    ensures FinishedFrom(w, k + 1, acc) == FinishedFrom(vals, k, acc)
    decreases |vals| - k
  {
    if k == |vals| {
      if extra == 1 {
        RunLenUnique(w, k + 1, 1);
      }
    } else {
      var n := RunLen(vals, k);
      PaddedRun(w, vals, extra, k);
      assert w[k + 1] == vals[k];
      PaddedFlagFrom(w, vals, extra, k + n, if vals[k] != Empty && n == 5 then vals[k] else acc);
    }
  }

  /** A line padded this way scores the same and flags the same fives. */
  lemma PaddedLine(vals: seq<Piece>, tail: seq<Piece>, acc: Piece)
    requires |vals| > 0 && vals[0] != NotExist && vals[|vals| - 1] != NotExist
    requires tail == [] || tail == [NotExist]
    ensures LineScore(Padded(vals, tail)) == LineScore(vals)
    ensures FinishedFrom(Padded(vals, tail), 0, acc) == FinishedFrom(vals, 0, acc)
  {
    var w := Padded(vals, tail);
    var extra := |tail|;
    assert PaddedBy(w, vals, extra);
    RunLenUnique(w, 0, 1);
    PaddedScoreFrom(w, vals, extra, 0);
    PaddedFlagFrom(w, vals, extra, 0, acc);
  }
}
