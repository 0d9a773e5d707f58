/**
 * The evaluator of the tic-tac-toe core: minimax with alpha-beta pruning.
 *
 * Scores are 1 (the AI, O, wins), -1 (the human, X, wins) and 0 (draw).
 * Three definitions live here:
 *  - GameValue, the plain (unpruned) minimax value of a position, the
 *    reference against which pruning is judged;
 *  - Pruned, the value that the program's alpha-beta loop computes, written
 *    as a function of the position and the window;
 *  - the method Minimax, the program's in-place search over a 9-cell board
 *    array, proved to return Pruned and to leave the board as it found it.
 */
module Evaluator {
  import opened Board

  /** Stands for -float('inf'): below every score. */
  const NegInf: int := -2
  /** Stands for float('inf'): above every score. */
  const PosInf: int := 2

  predicate IsScore(s: int) {
    -1 <= s <= 1
  }

  function Max(a: int, b: int): int {
    if a >= b then a else b
  }

  function Min(a: int, b: int): int {
    if a <= b then a else b
  }

  /** Every move of the list is legal on `g`. */
  predicate AllLegal(g: Grid, moves: seq<Move>) {
    forall t :: 0 <= t < |moves| ==> IsLegal(g, moves[t])
  }

  /**
   * A position where minimax stops: a line for O, a line for X, or a full
   * board. Any other position has a move, so the search loop runs at least once.
   */
  predicate IsTerminal(g: Grid): (r: bool)
    ensures !r ==> AvailableMoves(g) != []
  {
    DrawIffNoMoves(g);
    CheckWin(g, O) || CheckWin(g, X) || IsDraw(g)
  }

  // ---------------------------------------------------------------------
  // The reference: plain minimax
  // ---------------------------------------------------------------------

  /**
   * The minimax value of `g` when the AI (maximizing) or the human is to
   * move, with the program's terminal precedence: an O line, then an X line,
   * then a full board.
   */
  function GameValue(g: Grid, maximizing: bool): (r: int)
    decreases CountEmpty(g), 1, 0
    ensures IsScore(r)
  {
    if CheckWin(g, O) then 1
    else if CheckWin(g, X) then -1
    else if IsDraw(g) then 0
    else if maximizing then ChildMax(g, AvailableMoves(g))
    else ChildMin(g, AvailableMoves(g))
  }

  /** The largest value for the human to move after O plays one of `moves`; NegInf for none. */
  function ChildMax(g: Grid, moves: seq<Move>): (r: int)
    requires AllLegal(g, moves)
    decreases CountEmpty(g), 0, |moves|
    ensures moves != [] ==> IsScore(r)
  {
    if moves == [] then NegInf
    else
      PlaceUsesBlank(g, moves[0], O);
      Max(GameValue(Place(g, moves[0], O), false), ChildMax(g, moves[1..]))
  }

  /** The smallest value for the AI to move after X plays one of `moves`; PosInf for none. */
  function ChildMin(g: Grid, moves: seq<Move>): (r: int)
    requires AllLegal(g, moves)
    decreases CountEmpty(g), 0, |moves|
    ensures moves != [] ==> IsScore(r)
  {
    if moves == [] then PosInf
    else
      PlaceUsesBlank(g, moves[0], X);
      Min(GameValue(Place(g, moves[0], X), true), ChildMin(g, moves[1..]))
  }

  /** ChildMax is the maximum of the children's values: an upper bound that one child attains. */
  lemma {:induction false} ChildMaxIsMaximum(g: Grid, moves: seq<Move>)
    requires AllLegal(g, moves)
    ensures forall t :: 0 <= t < |moves| ==> GameValue(Place(g, moves[t], O), false) <= ChildMax(g, moves)
    ensures moves != [] ==>
      exists t :: 0 <= t < |moves| && ChildMax(g, moves) == GameValue(Place(g, moves[t], O), false)
    decreases |moves|
  {
    if moves != [] {
      ChildMaxIsMaximum(g, moves[1..]);
      var v := GameValue(Place(g, moves[0], O), false);
      forall t | 1 <= t < |moves|
        ensures GameValue(Place(g, moves[t], O), false) <= ChildMax(g, moves)
      {
        assert moves[t] == moves[1..][t - 1];
      }
      if ChildMax(g, moves) != v {
        var t :| 0 <= t < |moves[1..]| && ChildMax(g, moves[1..]) == GameValue(Place(g, moves[1..][t], O), false);
        assert moves[1..][t] == moves[t + 1];
      }
    }
  }

  /** ChildMin is the minimum of the children's values: a lower bound that one child attains. */
  lemma {:induction false} ChildMinIsMinimum(g: Grid, moves: seq<Move>)
    requires AllLegal(g, moves)
    ensures forall t :: 0 <= t < |moves| ==> ChildMin(g, moves) <= GameValue(Place(g, moves[t], X), true)
    ensures moves != [] ==>
      exists t :: 0 <= t < |moves| && ChildMin(g, moves) == GameValue(Place(g, moves[t], X), true)
    decreases |moves|
  {
    if moves != [] {
      ChildMinIsMinimum(g, moves[1..]);
      var v := GameValue(Place(g, moves[0], X), true);
      forall t | 1 <= t < |moves|
        ensures ChildMin(g, moves) <= GameValue(Place(g, moves[t], X), true)
      {
        assert moves[t] == moves[1..][t - 1];
      }
      if ChildMin(g, moves) != v {
        var t :| 0 <= t < |moves[1..]| && ChildMin(g, moves[1..]) == GameValue(Place(g, moves[1..][t], X), true);
        assert moves[1..][t] == moves[t + 1];
      }
    }
  }

  // ---------------------------------------------------------------------
  // The program's alpha-beta search, as a function
  // ---------------------------------------------------------------------

  /**
   * The score that minimax(board, alpha, beta, is_maximizing) returns.
   * Whatever the window, it is a score: an open position has a move, and the
   * first child's score replaces the infinite starting value.
   */
  function Pruned(g: Grid, alpha: int, beta: int, maximizing: bool): (r: int)
    decreases CountEmpty(g), 1, 0
    ensures IsScore(r)
  {
    if CheckWin(g, O) then 1
    else if CheckWin(g, X) then -1
    else if IsDraw(g) then 0
    else if maximizing then PrunedMax(g, AvailableMoves(g), alpha, beta, NegInf)
    else PrunedMin(g, AvailableMoves(g), alpha, beta, PosInf)
  }

  /**
   * The maximizing loop over the remaining `moves`, with the current alpha
   * and the best score so far; it stops as soon as beta <= alpha.
   * The result is the starting best or a score above it.
   */
  function PrunedMax(g: Grid, moves: seq<Move>, alpha: int, beta: int, best: int): (r: int)
    requires AllLegal(g, moves)
    decreases CountEmpty(g), 0, |moves|
    ensures r == best || (best < r && IsScore(r))
    ensures moves != [] ==> -1 <= r
  {
    if moves == [] then best
    else
      PlaceUsesBlank(g, moves[0], O);
      var score := Pruned(Place(g, moves[0], O), alpha, beta, false);
      var best' := Max(best, score);
      var alpha' := Max(alpha, score);
      if beta <= alpha' then best'
      else PrunedMax(g, moves[1..], alpha', beta, best')
  }

  /**
   * The minimizing loop over the remaining `moves`, with the current beta
   * and the best score so far; it stops as soon as beta <= alpha.
   * The result is the starting best or a score below it.
   */
  function PrunedMin(g: Grid, moves: seq<Move>, alpha: int, beta: int, best: int): (r: int)
    requires AllLegal(g, moves)
    decreases CountEmpty(g), 0, |moves|
    ensures r == best || (r < best && IsScore(r))
    ensures moves != [] ==> r <= 1
  {
    if moves == [] then best
    else
      PlaceUsesBlank(g, moves[0], X);
      var score := Pruned(Place(g, moves[0], X), alpha, beta, true);
      var best' := Min(best, score);
      var beta' := Min(beta, score);
      if beta' <= alpha then best'
      else PrunedMin(g, moves[1..], alpha, beta', best')
  }

  // ---------------------------------------------------------------------
  // Alpha-beta correctness
  // ---------------------------------------------------------------------

  /**
   * Fail-soft alpha-beta: for a window alpha < beta made of scores and the
   * two infinities, the pruned search returns the true value when it lies
   * strictly inside the window, a value <= alpha when the true value is
   * <= alpha, and a value >= beta when the true value is >= beta.
   */
  lemma {:induction false} AlphaBetaWindow(g: Grid, alpha: int, beta: int, maximizing: bool)
    requires NegInf <= alpha < beta <= PosInf
    ensures var v, r := GameValue(g, maximizing), Pruned(g, alpha, beta, maximizing);
      && (alpha < v < beta ==> r == v)
      && (v <= alpha ==> r <= alpha)
      && (v >= beta ==> r >= beta)
    decreases CountEmpty(g), 1, 0
  {
    if !IsTerminal(g) {
      if maximizing {
        PrunedMaxWindow(g, AvailableMoves(g), alpha, beta, alpha, NegInf, NegInf);
      } else {
        PrunedMinWindow(g, AvailableMoves(g), alpha, beta, beta, PosInf, PosInf);
      }
    }
  }

  /**
   * The arithmetic of one round of the maximizing loop: a child whose pruned
   * score obeys the window property keeps the loop's bookkeeping in step
   * with the running maximum of the true values.
   */
  lemma MaxRound(alpha0: int, alpha: int, beta: int, best: int, seen: int, v0: int, score: int)
    requires alpha0 <= alpha < beta
    requires seen > alpha0 ==> best == seen && alpha == seen
    requires seen <= alpha0 ==> alpha == alpha0 && best <= alpha0
    requires alpha < v0 < beta ==> score == v0
    requires v0 <= alpha ==> score <= alpha
    requires v0 >= beta ==> score >= beta
    ensures beta <= Max(alpha, score) ==> Max(best, score) >= beta && v0 >= beta
    ensures Max(alpha, score) < beta ==> alpha0 <= Max(alpha, score)
    ensures Max(alpha, score) < beta && Max(seen, v0) > alpha0 ==>
      Max(best, score) == Max(seen, v0) && Max(alpha, score) == Max(seen, v0)
    ensures Max(alpha, score) < beta && Max(seen, v0) <= alpha0 ==>
      Max(alpha, score) == alpha0 && Max(best, score) <= alpha0
  {
  }

  /** The arithmetic of one round of the minimizing loop; the mirror image of MaxRound. */
  lemma MinRound(alpha: int, beta0: int, beta: int, best: int, seen: int, v0: int, score: int)
    requires alpha < beta <= beta0
    requires seen < beta0 ==> best == seen && beta == seen
    requires seen >= beta0 ==> beta == beta0 && best >= beta0
    requires alpha < v0 < beta ==> score == v0
    requires v0 <= alpha ==> score <= alpha
    requires v0 >= beta ==> score >= beta
    ensures Min(beta, score) <= alpha ==> Min(best, score) <= alpha && v0 <= alpha
    ensures alpha < Min(beta, score) ==> Min(beta, score) <= beta0
    ensures alpha < Min(beta, score) && Min(seen, v0) < beta0 ==>
      Min(best, score) == Min(seen, v0) && Min(beta, score) == Min(seen, v0)
    ensures alpha < Min(beta, score) && Min(seen, v0) >= beta0 ==>
      Min(beta, score) == beta0 && Min(best, score) >= beta0
  {
  }

  /**
   * The maximizing loop, part way through. `seen` is the largest true value
   * among the moves already explored (NegInf before the first); the loop so
   * far has kept alpha and best in step with it.
   */
  lemma {:induction false} PrunedMaxWindow(g: Grid, moves: seq<Move>, alpha0: int, beta: int,
                                           alpha: int, best: int, seen: int)
    requires AllLegal(g, moves)
    requires NegInf <= alpha0 <= alpha < beta <= PosInf
    requires NegInf <= seen
    requires seen > alpha0 ==> best == seen && alpha == seen
    requires seen <= alpha0 ==> alpha == alpha0 && best <= alpha0
    ensures var v, r := Max(seen, ChildMax(g, moves)), PrunedMax(g, moves, alpha, beta, best);
      && (alpha0 < v < beta ==> r == v)
      && (v <= alpha0 ==> r <= alpha0)
      && (v >= beta ==> r >= beta)
    decreases CountEmpty(g), 0, |moves|
  {
    if moves != [] {
      var child := Place(g, moves[0], O);
      PlaceUsesBlank(g, moves[0], O);
      AlphaBetaWindow(child, alpha, beta, false);
      var score := Pruned(child, alpha, beta, false);
      var v0 := GameValue(child, false);
      var alpha' := Max(alpha, score);
      assert ChildMax(g, moves) == Max(v0, ChildMax(g, moves[1..]));
      MaxRound(alpha0, alpha, beta, best, seen, v0, score);
      if alpha' < beta {
        assert PrunedMax(g, moves, alpha, beta, best) == PrunedMax(g, moves[1..], alpha', beta, Max(best, score));
        PrunedMaxWindow(g, moves[1..], alpha0, beta, alpha', Max(best, score), Max(seen, v0));
      } else {
        assert PrunedMax(g, moves, alpha, beta, best) == Max(best, score);
      }
    }
  }

  /** The minimizing loop, part way through; the mirror image of PrunedMaxWindow. */
  lemma {:induction false} PrunedMinWindow(g: Grid, moves: seq<Move>, alpha: int, beta0: int,
                                           beta: int, best: int, seen: int)
    requires AllLegal(g, moves)
    requires NegInf <= alpha < beta <= beta0 <= PosInf
    requires seen <= PosInf
    requires seen < beta0 ==> best == seen && beta == seen
    requires seen >= beta0 ==> beta == beta0 && best >= beta0
    ensures var v, r := Min(seen, ChildMin(g, moves)), PrunedMin(g, moves, alpha, beta, best);
      && (alpha < v < beta0 ==> r == v)
      && (v <= alpha ==> r <= alpha)
      && (v >= beta0 ==> r >= beta0)
    decreases CountEmpty(g), 0, |moves|
  {
    if moves != [] {
      var child := Place(g, moves[0], X);
      PlaceUsesBlank(g, moves[0], X);
      AlphaBetaWindow(child, alpha, beta, true);
      var score := Pruned(child, alpha, beta, true);
      var v0 := GameValue(child, true);
      var beta' := Min(beta, score);
      assert ChildMin(g, moves) == Min(v0, ChildMin(g, moves[1..]));
      MinRound(alpha, beta0, beta, best, seen, v0, score);
      if alpha < beta' {
        assert PrunedMin(g, moves, alpha, beta, best) == PrunedMin(g, moves[1..], alpha, beta', Min(best, score));
        PrunedMinWindow(g, moves[1..], alpha, beta0, beta', Min(best, score), Min(seen, v0));
      } else {
        assert PrunedMin(g, moves, alpha, beta, best) == Min(best, score);
      }
    }
  }

  /** With the full window (-inf, +inf), pruning changes nothing: the search returns the minimax value. */
  lemma FullWindow(g: Grid, maximizing: bool)
    ensures Pruned(g, NegInf, PosInf, maximizing) == GameValue(g, maximizing)
  {
    AlphaBetaWindow(g, NegInf, PosInf, maximizing);
  }

  // ---------------------------------------------------------------------
  // The program's search, in place on the board
  // ---------------------------------------------------------------------

  /**
   * minimax(board, alpha, beta, is_maximizing): tests the terminal cases in
   * the program's order, then runs the maximizing or the minimizing loop.
   * The board is left as it was found.
   */
  method Minimax(board: array<char>, alpha: int, beta: int, isMaximizing: bool) returns (score: int)
    requires board.Length == 9
    modifies board
    decreases CountEmpty(board[..]), 1
    ensures board[..] == old(board[..])
    ensures score == Pruned(old(board[..]), alpha, beta, isMaximizing)
    ensures CheckWin(old(board[..]), O) ==> score == 1
    ensures !CheckWin(old(board[..]), O) && CheckWin(old(board[..]), X) ==> score == -1
    ensures !CheckWin(old(board[..]), O) && !CheckWin(old(board[..]), X) && IsDraw(old(board[..])) ==> score == 0
    ensures IsScore(score)
  {
    if CheckWin(board[..], O) {
      return 1;
    }
    if CheckWin(board[..], X) {
      return -1;
    }
    if IsDraw(board[..]) {
      return 0;
    }
    if isMaximizing {
      score := MaximizingLoop(board, alpha, beta);
    } else {
      score := MinimizingLoop(board, alpha, beta);
    }
  }

  /** One round of the maximizing loop, seen from the pruned fold. */
  lemma PrunedMaxStep(g: Grid, moves: seq<Move>, i: int, alpha: int, beta: int, best: int, s: int)
    requires AllLegal(g, moves) && 0 <= i < |moves|
    requires s == Pruned(Place(g, moves[i], O), alpha, beta, false)
    ensures beta <= Max(alpha, s) ==> PrunedMax(g, moves[i..], alpha, beta, best) == Max(best, s)
    ensures beta > Max(alpha, s) ==>
      PrunedMax(g, moves[i..], alpha, beta, best) == PrunedMax(g, moves[i + 1..], Max(alpha, s), beta, Max(best, s))
  {
    assert moves[i..][0] == moves[i];
    assert moves[i..][1..] == moves[i + 1..];
  }

  /** One round of the minimizing loop, seen from the pruned fold. */
  lemma PrunedMinStep(g: Grid, moves: seq<Move>, i: int, alpha: int, beta: int, best: int, s: int)
    requires AllLegal(g, moves) && 0 <= i < |moves|
    requires s == Pruned(Place(g, moves[i], X), alpha, beta, true)
    ensures Min(beta, s) <= alpha ==> PrunedMin(g, moves[i..], alpha, beta, best) == Min(best, s)
    ensures Min(beta, s) > alpha ==>
      PrunedMin(g, moves[i..], alpha, beta, best) == PrunedMin(g, moves[i + 1..], alpha, Min(beta, s), Min(best, s))
  {
    assert moves[i..][0] == moves[i];
    assert moves[i..][1..] == moves[i + 1..];
  }

  /**
   * The `if is_maximizing` branch: for each available move in row-major
   * order, write O, search with the human to move, write the blank back,
   * and raise max_score and alpha; stop once beta <= alpha. Every write is
   * undone, on the pruning exit as well.
   */
  method MaximizingLoop(board: array<char>, alpha: int, beta: int) returns (maxScore: int)
    requires board.Length == 9
    requires !IsTerminal(board[..])
    modifies board
    decreases CountEmpty(board[..]), 0
    ensures board[..] == old(board[..])
    ensures maxScore == PrunedMax(old(board[..]), AvailableMoves(old(board[..])), alpha, beta, NegInf)
  {
    ghost var g: Grid := board[..];
    var moves := AvailableMoves(board[..]);
    maxScore := NegInf;
    var a := alpha;
    var i := 0;
    while i < |moves|
      invariant 0 <= i <= |moves|
      invariant board[..] == g
      invariant PrunedMax(g, moves[i..], a, beta, maxScore) == PrunedMax(g, moves, alpha, beta, NegInf)
    {
      var m := moves[i];
      PlaceUsesBlank(g, m, O);
      board[Index(m)] := O;
      assert board[..] == Place(g, m, O);
      var s := Minimax(board, a, beta, false);
      board[Index(m)] := EMPTY;
      assert board[..] == g;
      PrunedMaxStep(g, moves, i, a, beta, maxScore, s);
      maxScore := Max(maxScore, s);
      a := Max(a, s);
      if beta <= a {
        break;
      }
      i := i + 1;
    }
  }

  /**
   * The `else` branch: for each available move in row-major order, write X,
   * search with the AI to move, write the blank back, and lower min_score
   * and beta; stop once beta <= alpha.
   */
  method MinimizingLoop(board: array<char>, alpha: int, beta: int) returns (minScore: int)
    requires board.Length == 9
    requires !IsTerminal(board[..])
    modifies board
    decreases CountEmpty(board[..]), 0
    ensures board[..] == old(board[..])
    ensures minScore == PrunedMin(old(board[..]), AvailableMoves(old(board[..])), alpha, beta, PosInf)
  {
    ghost var g: Grid := board[..];
    var moves := AvailableMoves(board[..]);
    minScore := PosInf;
    var b := beta;
    var i := 0;
    while i < |moves|
      invariant 0 <= i <= |moves|
      invariant board[..] == g
      invariant PrunedMin(g, moves[i..], alpha, b, minScore) == PrunedMin(g, moves, alpha, beta, PosInf)
    {
      var m := moves[i];
      PlaceUsesBlank(g, m, X);
      board[Index(m)] := X;
      assert board[..] == Place(g, m, X);
      var s := Minimax(board, alpha, b, true);
      board[Index(m)] := EMPTY;
      assert board[..] == g;
      PrunedMinStep(g, moves, i, alpha, b, minScore, s);
      minScore := Min(minScore, s);
      b := Min(b, s);
      if b <= alpha {
        break;
      }
      i := i + 1;
    }
  }
}
