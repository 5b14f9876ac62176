/** The computer's search, minimax with alpha-beta pruning (script.js:73-110): as a
    function on board values (`AlphaBeta`), next to the same search without pruning
    (`FullSearch`), and as the in-place method the program runs (`Minimax`), which
    puts a stone on the board, searches, and takes the stone back. */
module Search {
  import opened Board
  import opened Outcome
  import opened MoveGen
  import opened Evaluate

  /** Stands for the program's Infinity: above every score a search can produce
      (see ValueBound). */
  const INF := 1_000_000_000

  /** The program's `{ score, move }`; a missing move is None. */
  datatype SearchResult = SearchResult(score: int, move: Option<Move>)

  /** The stone of the side to move: the computer (O) maximises, the human (X) minimises. */
  function Stone(isAI: bool): Cell
  {
    if isAI then O else X
  }

  /** Every move lies on the board. */
  predicate OnBoard(moves: seq<Move>)
  {
    forall m | m in moves :: InBounds(m.row, m.col)
  }

  /** The position after the side to move plays m. */
  function Child(g: Grid, m: Move, isAI: bool): Grid
    requires InBounds(m.row, m.col)
  {
    Place(g, m.row, m.col, Stone(isAI))
  }

  /** The rules of one node of minimax (script.js:74-109). The terminal rules come
      first, in the program's order: a win for O, a win for X, then a full board or
      depth 0, scored by evaluateBoard; otherwise the side to move tries every
      candidate. */
  function AlphaBetaNode(g: Grid, depth: nat, isAI: bool, alpha: int, beta: int): SearchResult
    decreases depth, 1, 0
  {
    var w := Winner(g);
    if w == Some(O) then SearchResult(10000 - depth, None)
    else if w == Some(X) then SearchResult(-10000 + depth, None)
    else if Full(g) || depth == 0 then SearchResult(BoardScore(g), None)
    else
      CandidatesSpec(g);
      if isAI then MaxLoop(g, depth, Candidates(g), alpha, beta, -INF, None)
      else MinLoop(g, depth, Candidates(g), alpha, beta, INF, None)
  }

  /** The computer's loop (script.js:82-94), resumed with the moves still to try, the
      current alpha, and the best score and move so far. A move replaces the best
      only when it is strictly better; the loop stops once beta <= alpha. */
  function MaxLoop(g: Grid, depth: nat, moves: seq<Move>, alpha: int, beta: int, best: int, bestMove: Option<Move>): SearchResult
    requires depth >= 1 && OnBoard(moves)
    decreases depth, 0, |moves|
  {
    if |moves| == 0 then SearchResult(best, bestMove)
    else
      var m := moves[0];
      var e := AlphaBeta(Child(g, m, true), depth - 1, false, alpha, beta).score;
      var best', bestMove' := if e > best then e else best, if e > best then Some(m) else bestMove;
      var alpha' := Max(alpha, e);
      if beta <= alpha' then SearchResult(best', bestMove')
      else MaxLoop(g, depth, moves[1..], alpha', beta, best', bestMove')
  }

  /** The human's loop (script.js:96-108), the mirror image of MaxLoop. */
  function MinLoop(g: Grid, depth: nat, moves: seq<Move>, alpha: int, beta: int, best: int, bestMove: Option<Move>): SearchResult
    requires depth >= 1 && OnBoard(moves)
    decreases depth, 0, |moves|
  {
    if |moves| == 0 then SearchResult(best, bestMove)
    else
      var m := moves[0];
      var e := AlphaBeta(Child(g, m, false), depth - 1, true, alpha, beta).score;
      var best', bestMove' := if e < best then e else best, if e < best then Some(m) else bestMove;
      var beta' := Min(beta, e);
      if beta' <= alpha then SearchResult(best', bestMove')
      else MinLoop(g, depth, moves[1..], alpha, beta', best', bestMove')
  }

  /** The reference: the same search over the same candidates, with the same
      terminal rules and tie-breaking, but without pruning. */
  function FullSearchNode(g: Grid, depth: nat, isAI: bool): SearchResult
    decreases depth, 1, 0
  {
    var w := Winner(g);
    if w == Some(O) then SearchResult(10000 - depth, None)
    else if w == Some(X) then SearchResult(-10000 + depth, None)
    else if Full(g) || depth == 0 then SearchResult(BoardScore(g), None)
    else
      CandidatesSpec(g);
      if isAI then FullMax(g, depth, Candidates(g), -INF, None)
      else FullMin(g, depth, Candidates(g), INF, None)
  }

  function FullMax(g: Grid, depth: nat, moves: seq<Move>, best: int, bestMove: Option<Move>): SearchResult
    requires depth >= 1 && OnBoard(moves)
    decreases depth, 0, |moves|
  {
    if |moves| == 0 then SearchResult(best, bestMove)
    else
      var m := moves[0];
      var e := FullSearch(Child(g, m, true), depth - 1, false).score;
      if e > best then FullMax(g, depth, moves[1..], e, Some(m))
      else FullMax(g, depth, moves[1..], best, bestMove)
  }

  function FullMin(g: Grid, depth: nat, moves: seq<Move>, best: int, bestMove: Option<Move>): SearchResult
    requires depth >= 1 && OnBoard(moves)
    decreases depth, 0, |moves|
  {
    if |moves| == 0 then SearchResult(best, bestMove)
    else
      var m := moves[0];
      var e := FullSearch(Child(g, m, false), depth - 1, true).score;
      if e < best then FullMin(g, depth, moves[1..], e, Some(m))
      else FullMin(g, depth, moves[1..], best, bestMove)
  }

  /** minimax(bd, depth, isAI, alpha, beta) (script.js:73-110) on a board value: the
      rules of AlphaBetaNode. The loops call AlphaBeta rather than AlphaBetaNode, so
      that reasoning about one loop does not expand the rules of every child. */
  function AlphaBeta(g: Grid, depth: nat, isAI: bool, alpha: int, beta: int): SearchResult
    decreases depth, 2, 0
  {
    AlphaBetaNode(g, depth, isAI, alpha, beta)
  }

  /** The unpruned reference search, FullSearchNode under the same arrangement. */
  function FullSearch(g: Grid, depth: nat, isAI: bool): SearchResult
    decreases depth, 2, 0
  {
    FullSearchNode(g, depth, isAI)
  }

  /** The exact minimax value of the position after the side to move plays m. */
  function ChildValue(g: Grid, depth: nat, isAI: bool, m: Move): int
    requires depth >= 1 && InBounds(m.row, m.col)
  {
    FullSearch(Child(g, m, isAI), depth - 1, !isAI).score
  }

  /** What a fail-soft alpha-beta search promises about the value v it returns with
      window (alpha, beta), given the exact value t: inside the window v is exact; at
      or below alpha it is an upper bound no higher than alpha; at or above beta it is
      a lower bound no lower than beta. */
  ghost predicate FailSoft(alpha: int, beta: int, v: int, t: int)
  {
    (t <= alpha ==> t <= v <= alpha) &&
    (alpha < t < beta ==> v == t) &&
    (beta <= t ==> beta <= v <= t)
  }

  lemma {:induction false} FullMaxAtLeast(g: Grid, depth: nat, moves: seq<Move>, best: int, bestMove: Option<Move>)
    requires depth >= 1 && OnBoard(moves)
    decreases |moves|
    ensures FullMax(g, depth, moves, best, bestMove).score >= best
  {
    if |moves| > 0 {
      var m := moves[0];
      var e := FullSearch(Child(g, m, true), depth - 1, false).score;
      if e > best {
        FullMaxAtLeast(g, depth, moves[1..], e, Some(m));
      } else {
        FullMaxAtLeast(g, depth, moves[1..], best, bestMove);
      }
    }
  }

  lemma {:induction false} FullMinAtMost(g: Grid, depth: nat, moves: seq<Move>, best: int, bestMove: Option<Move>)
    requires depth >= 1 && OnBoard(moves)
    decreases |moves|
    ensures FullMin(g, depth, moves, best, bestMove).score <= best
  {
    if |moves| > 0 {
      var m := moves[0];
      var e := FullSearch(Child(g, m, false), depth - 1, true).score;
      if e < best {
        FullMinAtMost(g, depth, moves[1..], e, Some(m));
      } else {
        FullMinAtMost(g, depth, moves[1..], best, bestMove);
      }
    }
  }

  lemma {:induction false} NodeFailSoft(g: Grid, depth: nat, isAI: bool, alpha: int, beta: int)
    requires -INF <= alpha < beta <= INF
    decreases depth, 1, 0
    ensures FailSoft(alpha, beta, AlphaBetaNode(g, depth, isAI, alpha, beta).score, FullSearchNode(g, depth, isAI).score)
  {
    var w := Winner(g);
    if w != Some(O) && w != Some(X) && !Full(g) && depth != 0 {
      CandidatesSpec(g);
      if isAI {
        MaxLoopFailSoft(g, depth, Candidates(g), alpha, alpha, beta, -INF, None, -INF, None);
      } else {
        MinLoopFailSoft(g, depth, Candidates(g), beta, alpha, beta, INF, None, INF, None);
      }
    }
  }

  /** Alpha-beta is fail-soft with respect to the unpruned search, for every window
      inside (-INF, INF): pruning never changes a value that lies inside the window,
      and outside it the returned value is on the correct side. */
  lemma {:induction false} AlphaBetaFailSoft(g: Grid, depth: nat, isAI: bool, alpha: int, beta: int)
    requires -INF <= alpha < beta <= INF
    decreases depth, 2, 0
    ensures FailSoft(alpha, beta, AlphaBeta(g, depth, isAI, alpha, beta).score, FullSearch(g, depth, isAI).score)
  {
    NodeFailSoft(g, depth, isAI, alpha, beta);
  }

  /** The computer's loop keeps alpha == max(a0, best) and tracks the exact running
      maximum bestT: once bestT rises above a0 the two agree, before that both stay at
      or below a0. */
  lemma {:induction false} MaxLoopFailSoft(g: Grid, depth: nat, moves: seq<Move>, a0: int, alpha: int, beta: int,
                                           best: int, bestMove: Option<Move>, bestT: int, bestMoveT: Option<Move>)
    requires depth >= 1 && OnBoard(moves)
    requires -INF <= a0 && alpha == Max(a0, best) && alpha < beta <= INF
    requires bestT <= a0 ==> bestT <= best <= a0
    requires a0 < bestT ==> best == bestT
    decreases depth, 0, |moves|
    ensures FailSoft(a0, beta, MaxLoop(g, depth, moves, alpha, beta, best, bestMove).score,
                     FullMax(g, depth, moves, bestT, bestMoveT).score)
  {
    if |moves| > 0 {
      var m := moves[0];
      var c := Child(g, m, true);
      AlphaBetaFailSoft(c, depth - 1, false, alpha, beta);
      var e := AlphaBeta(c, depth - 1, false, alpha, beta).score;
      var t := FullSearch(c, depth - 1, false).score;
      var best' := if e > best then e else best;
      var bestMove' := if e > best then Some(m) else bestMove;
      var bestT' := if t > bestT then t else bestT;
      var bestMoveT' := if t > bestT then Some(m) else bestMoveT;
      var alpha' := Max(alpha, e);
      var total := FullMax(g, depth, moves[1..], bestT', bestMoveT').score;
      FullMaxAtLeast(g, depth, moves[1..], bestT', bestMoveT');
      MaxStep(a0, alpha, beta, best, bestT, e, t, total);
      if beta <= alpha' {
      } else {
        MaxLoopFailSoft(g, depth, moves[1..], a0, alpha', beta, best', bestMove', bestT', bestMoveT');
      }
    }
  }

  /** The mirror image of MaxLoopFailSoft for the human's loop. */
  lemma {:induction false} MinLoopFailSoft(g: Grid, depth: nat, moves: seq<Move>, b0: int, alpha: int, beta: int,
                                           best: int, bestMove: Option<Move>, bestT: int, bestMoveT: Option<Move>)
    requires depth >= 1 && OnBoard(moves)
    requires b0 <= INF && beta == Min(b0, best) && -INF <= alpha < beta
    requires b0 <= bestT ==> b0 <= best <= bestT
    requires bestT < b0 ==> best == bestT
    decreases depth, 0, |moves|
    ensures FailSoft(alpha, b0, MinLoop(g, depth, moves, alpha, beta, best, bestMove).score,
                     FullMin(g, depth, moves, bestT, bestMoveT).score)
  {
    if |moves| > 0 {
      var m := moves[0];
      var c := Child(g, m, false);
      AlphaBetaFailSoft(c, depth - 1, true, alpha, beta);
      var e := AlphaBeta(c, depth - 1, true, alpha, beta).score;
      var t := FullSearch(c, depth - 1, true).score;
      var best' := if e < best then e else best;
      var bestMove' := if e < best then Some(m) else bestMove;
      var bestT' := if t < bestT then t else bestT;
      var bestMoveT' := if t < bestT then Some(m) else bestMoveT;
      var beta' := Min(beta, e);
      var total := FullMin(g, depth, moves[1..], bestT', bestMoveT').score;
      FullMinAtMost(g, depth, moves[1..], bestT', bestMoveT');
      MinStep(b0, alpha, beta, best, bestT, e, t, total);
      if beta' <= alpha {
      } else {
        MinLoopFailSoft(g, depth, moves[1..], b0, alpha, beta', best', bestMove', bestT', bestMoveT');
      }
    }
  }

  /** One step of the computer's loop, on the numbers alone: child value e returned
      for exact value t with window (alpha, beta). */
  lemma MaxStep(a0: int, alpha: int, beta: int, best: int, bestT: int, e: int, t: int, total: int)
    requires alpha == Max(a0, best) && alpha < beta
    requires bestT <= a0 ==> bestT <= best <= a0
    requires a0 < bestT ==> best == bestT
    requires FailSoft(alpha, beta, e, t)
    requires total >= (if t > bestT then t else bestT)
    ensures var best', bestT' := (if e > best then e else best), (if t > bestT then t else bestT);
      Max(alpha, e) == Max(a0, best') &&
      (beta <= Max(alpha, e) ==> FailSoft(a0, beta, best', total)) &&
      (Max(alpha, e) < beta ==>
        (bestT' <= a0 ==> bestT' <= best' <= a0) && (a0 < bestT' ==> best' == bestT'))
  {
  }

  /** One step of the human's loop, on the numbers alone. */
  lemma MinStep(b0: int, alpha: int, beta: int, best: int, bestT: int, e: int, t: int, total: int)
    requires beta == Min(b0, best) && alpha < beta
    requires b0 <= bestT ==> b0 <= best <= bestT
    requires bestT < b0 ==> best == bestT
    requires FailSoft(alpha, beta, e, t)
    requires total <= (if t < bestT then t else bestT)
    ensures var best', bestT' := (if e < best then e else best), (if t < bestT then t else bestT);
      Min(beta, e) == Min(b0, best') &&
      (Min(beta, e) <= alpha ==> FailSoft(alpha, b0, best', total)) &&
      (alpha < Min(beta, e) ==>
        (b0 <= bestT' ==> b0 <= best' <= bestT') && (bestT' < b0 ==> best' == bestT'))
  {
  }

  /** The largest board evaluation in absolute value (see Evaluate.BoardScore). */
  const BOUND := 9_000_000

  lemma {:induction false} NodeBound(g: Grid, depth: nat, isAI: bool)
    decreases depth, 1, 0
    ensures -BOUND - depth <= FullSearchNode(g, depth, isAI).score <= BOUND + depth
  {
    var w := Winner(g);
    if w != Some(O) && w != Some(X) && !Full(g) && depth != 0 {
      CandidatesSpec(g);
      NoCandidatesIffFull(g);
      if isAI {
        FullMaxBound(g, depth, Candidates(g), -INF, None);
      } else {
        FullMinBound(g, depth, Candidates(g), INF, None);
      }
    }
  }

  /** Every exact value lies within BOUND + depth of 0: a win is worth at most 10000
      and the evaluation at most BOUND, and each level down adds at most one. So with
      depth below INF - BOUND, no value reaches the program's infinities. */
  lemma {:induction false} ValueBound(g: Grid, depth: nat, isAI: bool)
    decreases depth, 2, 0
    ensures -BOUND - depth <= FullSearch(g, depth, isAI).score <= BOUND + depth
  {
    NodeBound(g, depth, isAI);
  }

  lemma {:induction false} FullMaxBound(g: Grid, depth: nat, moves: seq<Move>, best: int, bestMove: Option<Move>)
    requires depth >= 1 && OnBoard(moves)
    requires (best == -INF && |moves| > 0) || -BOUND - depth <= best <= BOUND + depth
    decreases depth, 0, |moves|
    ensures -BOUND - depth <= FullMax(g, depth, moves, best, bestMove).score <= BOUND + depth
  {
    if |moves| > 0 {
      var c := Child(g, moves[0], true);
      ValueBound(c, depth - 1, false);
      if FullSearch(c, depth - 1, false).score > best {
        FullMaxBound(g, depth, moves[1..], FullSearch(c, depth - 1, false).score, Some(moves[0]));
      } else {
        FullMaxBound(g, depth, moves[1..], best, bestMove);
      }
    }
  }

  lemma {:induction false} FullMinBound(g: Grid, depth: nat, moves: seq<Move>, best: int, bestMove: Option<Move>)
    requires depth >= 1 && OnBoard(moves)
    requires (best == INF && |moves| > 0) || -BOUND - depth <= best <= BOUND + depth
    decreases depth, 0, |moves|
    ensures -BOUND - depth <= FullMin(g, depth, moves, best, bestMove).score <= BOUND + depth
  {
    if |moves| > 0 {
      var c := Child(g, moves[0], false);
      ValueBound(c, depth - 1, true);
      if FullSearch(c, depth - 1, true).score < best {
        FullMinBound(g, depth, moves[1..], FullSearch(c, depth - 1, true).score, Some(moves[0]));
      } else {
        FullMinBound(g, depth, moves[1..], best, bestMove);
      }
    }
  }

  /** With beta at infinity the computer's loop never cuts off, alpha is always its
      best score so far, and it picks the same moves as the unpruned loop. */
  lemma {:induction false} MaxRootExact(g: Grid, depth: nat, moves: seq<Move>, best: int, bestMove: Option<Move>)
    requires depth >= 1 && OnBoard(moves)
    requires BOUND + depth <= INF && -INF <= best < INF
    decreases |moves|
    ensures MaxLoop(g, depth, moves, best, INF, best, bestMove) == FullMax(g, depth, moves, best, bestMove)
  {
    if |moves| > 0 {
      var c := Child(g, moves[0], true);
      AlphaBetaFailSoft(c, depth - 1, false, best, INF);
      ValueBound(c, depth - 1, false);
      if FullSearch(c, depth - 1, false).score > best {
        MaxRootExact(g, depth, moves[1..], FullSearch(c, depth - 1, false).score, Some(moves[0]));
      } else {
        MaxRootExact(g, depth, moves[1..], best, bestMove);
      }
    }
  }

  /** The mirror image for the human's loop with alpha at minus infinity. */
  lemma {:induction false} MinRootExact(g: Grid, depth: nat, moves: seq<Move>, best: int, bestMove: Option<Move>)
    requires depth >= 1 && OnBoard(moves)
    requires BOUND + depth <= INF && -INF < best <= INF
    decreases |moves|
    ensures MinLoop(g, depth, moves, -INF, best, best, bestMove) == FullMin(g, depth, moves, best, bestMove)
  {
    if |moves| > 0 {
      var c := Child(g, moves[0], false);
      AlphaBetaFailSoft(c, depth - 1, true, -INF, best);
      ValueBound(c, depth - 1, true);
      if FullSearch(c, depth - 1, true).score < best {
        MinRootExact(g, depth, moves[1..], FullSearch(c, depth - 1, true).score, Some(moves[0]));
      } else {
        MinRootExact(g, depth, moves[1..], best, bestMove);
      }
    }
  }

  /** Called with the full window (-Infinity, Infinity), as the computer's move does,
      alpha-beta returns exactly what the unpruned search returns, move included. */
  lemma FullWindowExact(g: Grid, depth: nat, isAI: bool)
    requires BOUND + depth <= INF
    ensures AlphaBeta(g, depth, isAI, -INF, INF) == FullSearch(g, depth, isAI)
  {
    var w := Winner(g);
    if w != Some(O) && w != Some(X) && !Full(g) && depth != 0 {
      CandidatesSpec(g);
      if isAI {
        MaxRootExact(g, depth, Candidates(g), -INF, None);
      } else {
        MinRootExact(g, depth, Candidates(g), INF, None);
      }
    }
  }

  /** The move alpha-beta returns is one of the loop's moves, or the best move it was
      handed. */
  lemma {:induction false} MaxLoopMove(g: Grid, depth: nat, moves: seq<Move>, alpha: int, beta: int, best: int, bestMove: Option<Move>)
    requires depth >= 1 && OnBoard(moves)
    decreases |moves|
    ensures var r := MaxLoop(g, depth, moves, alpha, beta, best, bestMove);
      r.move == bestMove || (r.move.Some? && r.move.value in moves)
  {
    if |moves| > 0 {
      var e := AlphaBeta(Child(g, moves[0], true), depth - 1, false, alpha, beta).score;
      var best', bestMove' := if e > best then e else best, if e > best then Some(moves[0]) else bestMove;
      if Max(alpha, e) < beta {
        MaxLoopMove(g, depth, moves[1..], Max(alpha, e), beta, best', bestMove');
      }
    }
  }

  lemma {:induction false} MinLoopMove(g: Grid, depth: nat, moves: seq<Move>, alpha: int, beta: int, best: int, bestMove: Option<Move>)
    requires depth >= 1 && OnBoard(moves)
    decreases |moves|
    ensures var r := MinLoop(g, depth, moves, alpha, beta, best, bestMove);
      r.move == bestMove || (r.move.Some? && r.move.value in moves)
  {
    if |moves| > 0 {
      var e := AlphaBeta(Child(g, moves[0], false), depth - 1, true, alpha, beta).score;
      var best', bestMove' := if e < best then e else best, if e < best then Some(moves[0]) else bestMove;
      if alpha < Min(beta, e) {
        MinLoopMove(g, depth, moves[1..], alpha, Min(beta, e), best', bestMove');
      }
    }
  }

  /** A move is returned only from a position that is not over, and it is one of the
      candidate moves: an empty cell of the board. */
  lemma AlphaBetaMove(g: Grid, depth: nat, isAI: bool, alpha: int, beta: int)
    ensures var r := AlphaBeta(g, depth, isAI, alpha, beta);
      r.move.Some? ==>
        Winner(g) == None && !Full(g) && depth > 0 &&
        r.move.value in Candidates(g) && Free(g, r.move.value)
  {
    WinnerIsPlayer(g);
    var w := Winner(g);
    if w != Some(O) && w != Some(X) && !Full(g) && depth != 0 {
      CandidatesSpec(g);
      if isAI {
        MaxLoopMove(g, depth, Candidates(g), alpha, beta, -INF, None);
      } else {
        MinLoopMove(g, depth, Candidates(g), alpha, beta, INF, None);
      }
    }
  }

  /** The unpruned computer's loop returns the largest child value (or the best it was
      handed, if none beats it) together with the FIRST move that reaches it. */
  lemma {:induction false} FullMaxFirstBest(g: Grid, depth: nat, moves: seq<Move>, best: int, bestMove: Option<Move>)
    requires depth >= 1 && OnBoard(moves)
    decreases |moves|
    ensures var r := FullMax(g, depth, moves, best, bestMove);
      best <= r.score &&
      (forall j | 0 <= j < |moves| :: ChildValue(g, depth, true, moves[j]) <= r.score) &&
      (r.score == best ==> r.move == bestMove) &&
      (best < r.score ==>
        exists i | 0 <= i < |moves| ::
          r.move == Some(moves[i]) && ChildValue(g, depth, true, moves[i]) == r.score &&
          forall j | 0 <= j < i :: ChildValue(g, depth, true, moves[j]) < r.score)
  {
    if |moves| > 0 {
      var e := ChildValue(g, depth, true, moves[0]);
      var best', bestMove' := if e > best then e else best, if e > best then Some(moves[0]) else bestMove;
      FullMaxFirstBest(g, depth, moves[1..], best', bestMove');
      var r := FullMax(g, depth, moves, best, bestMove);
      assert r == FullMax(g, depth, moves[1..], best', bestMove');
      forall j | 1 <= j < |moves|
        ensures ChildValue(g, depth, true, moves[j]) <= r.score
      {
        assert moves[j] == moves[1..][j - 1];
      }
      if best' < r.score {
        var i' :| 0 <= i' < |moves[1..]| &&
          r.move == Some(moves[1..][i']) && ChildValue(g, depth, true, moves[1..][i']) == r.score &&
          forall j | 0 <= j < i' :: ChildValue(g, depth, true, moves[1..][j]) < r.score;
        forall j | 0 <= j < i' + 1
          ensures ChildValue(g, depth, true, moves[j]) < r.score
        {
          if j > 0 {
            assert moves[j] == moves[1..][j - 1];
          }
        }
        assert r.move == Some(moves[i' + 1]);
      } else if best < r.score {
        assert r.move == Some(moves[0]);
      }
    }
  }

  /** The mirror image: the smallest child value and the first move that reaches it. */
  lemma {:induction false} FullMinFirstBest(g: Grid, depth: nat, moves: seq<Move>, best: int, bestMove: Option<Move>)
    requires depth >= 1 && OnBoard(moves)
    decreases |moves|
    ensures var r := FullMin(g, depth, moves, best, bestMove);
      r.score <= best &&
      (forall j | 0 <= j < |moves| :: r.score <= ChildValue(g, depth, false, moves[j])) &&
      (r.score == best ==> r.move == bestMove) &&
      (r.score < best ==>
        exists i | 0 <= i < |moves| ::
          r.move == Some(moves[i]) && ChildValue(g, depth, false, moves[i]) == r.score &&
          forall j | 0 <= j < i :: r.score < ChildValue(g, depth, false, moves[j]))
  {
    if |moves| > 0 {
      var e := ChildValue(g, depth, false, moves[0]);
      var best', bestMove' := if e < best then e else best, if e < best then Some(moves[0]) else bestMove;
      FullMinFirstBest(g, depth, moves[1..], best', bestMove');
      var r := FullMin(g, depth, moves, best, bestMove);
      assert r == FullMin(g, depth, moves[1..], best', bestMove');
      forall j | 1 <= j < |moves|
        ensures r.score <= ChildValue(g, depth, false, moves[j])
      {
        assert moves[j] == moves[1..][j - 1];
      }
      if r.score < best' {
        var i' :| 0 <= i' < |moves[1..]| &&
          r.move == Some(moves[1..][i']) && ChildValue(g, depth, false, moves[1..][i']) == r.score &&
          forall j | 0 <= j < i' :: r.score < ChildValue(g, depth, false, moves[1..][j]);
        forall j | 0 <= j < i' + 1
          ensures r.score < ChildValue(g, depth, false, moves[j])
        {
          if j > 0 {
            assert moves[j] == moves[1..][j - 1];
          }
        }
        assert r.move == Some(moves[i' + 1]);
      } else if r.score < best {
        assert r.move == Some(moves[0]);
      }
    }
  }

  /** r carries a move from the list whose child value is r's score, the largest
      child value over the list, and no earlier move in the list reaches it. */
  ghost predicate PicksFirstBest(g: Grid, depth: nat, moves: seq<Move>, r: SearchResult)
    requires depth >= 1 && OnBoard(moves)
  {
    r.move.Some? && r.move.value in moves &&
    r.score == ChildValue(g, depth, true, r.move.value) &&
    (forall m | m in moves :: ChildValue(g, depth, true, m) <= r.score) &&
    exists i | 0 <= i < |moves| ::
      moves[i] == r.move.value && forall j | 0 <= j < i :: ChildValue(g, depth, true, moves[j]) < r.score
  }

  /** From minus infinity, the unpruned computer's loop over a non-empty list always
      settles on a move: the first one with the largest child value. */
  lemma FullMaxPicksFirstBest(g: Grid, depth: nat, moves: seq<Move>)
    requires depth >= 1 && OnBoard(moves) && |moves| > 0
    requires BOUND + depth <= INF
    ensures PicksFirstBest(g, depth, moves, FullMax(g, depth, moves, -INF, None))
  {
    FullMaxFirstBest(g, depth, moves, -INF, None);
    ValueBound(Child(g, moves[0], true), depth - 1, false);
    var r := FullMax(g, depth, moves, -INF, None);
    assert ChildValue(g, depth, true, moves[0]) <= r.score;
    forall m | m in moves
      ensures ChildValue(g, depth, true, m) <= r.score
    {
      var j :| 0 <= j < |moves| && moves[j] == m;
    }
  }

  /** The computer's move (minimax(board, 2, true, -Infinity, Infinity), script.js:45):
      on a board with no winner and an empty cell, alpha-beta always returns a move;
      it is a candidate, its exact value is the largest among the candidates, and it
      is the first candidate, in generation order, with that value. */
  lemma RootMove(g: Grid, depth: nat)
    requires 1 <= depth && BOUND + depth <= INF
    requires Winner(g) == None && !Full(g)
    ensures OnBoard(Candidates(g))
    ensures PicksFirstBest(g, depth, Candidates(g), AlphaBeta(g, depth, true, -INF, INF))
  {
    CandidatesSpec(g);
    NoCandidatesIffFull(g);
    FullWindowExact(g, depth, true);
    FullSearchExpands(g, depth, true);
    FullMaxPicksFirstBest(g, depth, Candidates(g));
  }

  /** A position that is not over is searched by the loop of the side to move over
      its candidates. */
  lemma FullSearchExpands(g: Grid, depth: nat, isAI: bool)
    requires depth != 0 && Winner(g) != Some(O) && Winner(g) != Some(X) && !Full(g)
    ensures OnBoard(Candidates(g))
    ensures FullSearch(g, depth, isAI) ==
      if isAI then FullMax(g, depth, Candidates(g), -INF, None) else FullMin(g, depth, Candidates(g), INF, None)
  {
    CandidatesSpec(g);
  }

  /** The terminal rules in the program's order (script.js:74-79): a position where only
      the computer has five in a row is a win for it whatever the depth and even on a
      full board, the same for the human, and a position with no five is scored by
      evaluateBoard once the board is full or the depth is spent. */
  lemma TerminalRules(g: Grid, depth: nat, isAI: bool, alpha: int, beta: int)
    ensures var r := AlphaBeta(g, depth, isAI, alpha, beta);
      var wins := exists a, b | InBounds(a, b) :: WinningCell(g, a, b);
      (wins && (forall a, b | InBounds(a, b) && WinningCell(g, a, b) :: g[a][b] == O) ==>
        r == SearchResult(10000 - depth, None)) &&
      (wins && (forall a, b | InBounds(a, b) && WinningCell(g, a, b) :: g[a][b] == X) ==>
        r == SearchResult(-10000 + depth, None)) &&
      (!wins && (Full(g) || depth == 0) ==> r == SearchResult(BoardScore(g), None))
  {
    WinnerSpec(g);
    if Winner(g) == Some(O) {
      var a, b :| InBounds(a, b) && WinningCell(g, a, b) && g[a][b] == O;
    } else if Winner(g) == Some(X) {
      var a, b :| InBounds(a, b) && WinningCell(g, a, b) && g[a][b] == X;
    }
  }

  /** minimax (script.js:73-110) as the program runs it: on the shared board, placing
      each candidate stone, searching, and clearing the cell again. It returns what
      AlphaBeta computes on the board it was given, and leaves the board as it found it. */
  method Minimax(bd: array2<Cell>, depth: nat, isAI: bool, alpha: int, beta: int) returns (res: SearchResult)
    requires IsBoard(bd)
    modifies bd
    decreases depth, 1
    ensures Snap(bd) == old(Snap(bd))
    ensures res == AlphaBeta(old(Snap(bd)), depth, isAI, alpha, beta)
  {
    var winner := GetWinner(bd);
    if winner == Some(O) {
      return SearchResult(10000 - depth, None);
    }
    if winner == Some(X) {
      return SearchResult(-10000 + depth, None);
    }
    if IsBoardFullCustom(bd) || depth == 0 {
      var score := EvaluateBoard(bd);
      return SearchResult(score, None);
    }
    var moves := GetCandidateMoves(bd);
    CandidatesSpec(Snap(bd));
    if isAI {
      res := MaxSearch(bd, depth, moves, alpha, beta);
    } else {
      res := MinSearch(bd, depth, moves, alpha, beta);
    }
  }

  /** The computer's loop of minimax (script.js:81-94). */
  method MaxSearch(bd: array2<Cell>, depth: nat, moves: seq<Move>, alpha0: int, beta: int) returns (res: SearchResult)
    requires IsBoard(bd) && depth >= 1 && OnBoard(moves)
    requires forall m | m in moves :: Free(Snap(bd), m)
    modifies bd
    decreases depth, 0
    ensures Snap(bd) == old(Snap(bd))
    ensures res == MaxLoop(old(Snap(bd)), depth, moves, alpha0, beta, -INF, None)
  {
    ghost var g := Snap(bd);
    var alpha := alpha0;
    var maxEval := -INF;
    var bestMove: Option<Move> := None;
    var k := 0;
    while k < |moves|
      invariant 0 <= k <= |moves|
      invariant Snap(bd) == g
      invariant MaxLoop(g, depth, moves, alpha0, beta, -INF, None) == MaxLoop(g, depth, moves[k..], alpha, beta, maxEval, bestMove)
      decreases |moves| - k
    {
      var m := moves[k];
      assert m in moves;
      SetCell(bd, m.row, m.col, O);
      var r := Minimax(bd, depth - 1, false, alpha, beta);
      SetCell(bd, m.row, m.col, Empty);
      PlaceUndo(g, m.row, m.col, O);
      var eval := r.score;
      assert moves[k..][1..] == moves[k + 1..];
      if eval > maxEval {
        maxEval := eval;
        bestMove := Some(m);
      }
      alpha := Max(alpha, eval);
      if beta <= alpha {
        break;
      }
      k := k + 1;
    }
    res := SearchResult(maxEval, bestMove);
  }

  /** The human's loop of minimax (script.js:95-108). */
  method MinSearch(bd: array2<Cell>, depth: nat, moves: seq<Move>, alpha: int, beta0: int) returns (res: SearchResult)
    requires IsBoard(bd) && depth >= 1 && OnBoard(moves)
    requires forall m | m in moves :: Free(Snap(bd), m)
    modifies bd
    decreases depth, 0
    ensures Snap(bd) == old(Snap(bd))
    ensures res == MinLoop(old(Snap(bd)), depth, moves, alpha, beta0, INF, None)
  {
    ghost var g := Snap(bd);
    var beta := beta0;
    var minEval := INF;
    var bestMove: Option<Move> := None;
    var k := 0;
    while k < |moves|
      invariant 0 <= k <= |moves|
      invariant Snap(bd) == g
      invariant MinLoop(g, depth, moves, alpha, beta0, INF, None) == MinLoop(g, depth, moves[k..], alpha, beta, minEval, bestMove)
      decreases |moves| - k
    {
      var m := moves[k];
      assert m in moves;
      SetCell(bd, m.row, m.col, X);
      var r := Minimax(bd, depth - 1, true, alpha, beta);
      SetCell(bd, m.row, m.col, Empty);
      PlaceUndo(g, m.row, m.col, X);
      var eval := r.score;
      assert moves[k..][1..] == moves[k + 1..];
      if eval < minEval {
        minEval := eval;
        bestMove := Some(m);
      }
      beta := Min(beta, eval);
      if beta <= alpha {
        break;
      }
      k := k + 1;
    }
    res := SearchResult(minEval, bestMove);
  }
}
