/**
 * The AI's move choice (get_ai_move): every available move is tried in
 * row-major order, scored by a full-window minimax search with the human
 * to move, and the first move with the strictly highest score is kept.
 */
module MoveSelector {
  import opened Board
  import opened Evaluator

  datatype Option<T> = None | Some(value: T)

  /** The score get_ai_move gives a move: the search of the position after O plays it. */
  function RootScore(g: Grid, m: Move): (r: int)
    requires IsLegal(g, m)
    ensures IsScore(r)
  {
    Pruned(Place(g, m, O), NegInf, PosInf, false)
  }

  /** The full-window search is the game value, so every root score is the true value of its child. */
  lemma RootScoreIsValue(g: Grid, m: Move)
    requires IsLegal(g, m)
    ensures RootScore(g, m) == GameValue(Place(g, m, O), false)
    ensures IsScore(RootScore(g, m))
  {
    FullWindow(Place(g, m, O), false);
  }

  /**
   * The selection loop over the remaining `moves`, with the best score and
   * the best move so far; a later move replaces the best only when its score
   * is strictly higher.
   */
  function SelectFrom(g: Grid, moves: seq<Move>, bestScore: int, best: Option<Move>): (r: Option<Move>)
    requires AllLegal(g, moves)
    decreases |moves|
    ensures r == best || (r.Some? && r.value in moves)
  {
    if moves == [] then best
    else
      var score := RootScore(g, moves[0]);
      if score > bestScore then SelectFrom(g, moves[1..], score, Some(moves[0]))
      else SelectFrom(g, moves[1..], bestScore, best)
  }

  /** get_ai_move(board): the move the AI plays, or None when no cell is empty. */
  function SelectMove(g: Grid): (r: Option<Move>)
    ensures r.Some? ==> IsLegal(g, r.value) && r.value in AvailableMoves(g)
  {
    SelectFrom(g, AvailableMoves(g), NegInf, None)
  }

  /**
   * Move k of `ms` is the AI's choice: no move scores higher, and every
   * move before it scores strictly lower (ties go to the earliest move in
   * row-major order).
   */
  predicate IsFirstBest(g: Grid, ms: seq<Move>, k: int)
    requires AllLegal(g, ms)
  {
    && 0 <= k < |ms|
    && (forall j :: 0 <= j < |ms| ==> RootScore(g, ms[j]) <= RootScore(g, ms[k]))
    && (forall j :: 0 <= j < k ==> RootScore(g, ms[j]) < RootScore(g, ms[k]))
  }

  /**
   * Move k of `moves` is what the selection loop settles on: the result is
   * that move, its score is the maximum ChildMax of the remaining scores, and
   * every move before it scores strictly lower.
   */
  predicate ChosenAt(g: Grid, moves: seq<Move>, k: int, r: Option<Move>)
    requires AllLegal(g, moves)
  {
    && 0 <= k < |moves|
    && r == Some(moves[k])
    && RootScore(g, moves[k]) == ChildMax(g, moves)
    && forall j :: 0 <= j < k ==> RootScore(g, moves[j]) < RootScore(g, moves[k])
  }

  /** A choice among the later moves stays the choice when the first move scores lower. */
  lemma ChosenAtShift(g: Grid, moves: seq<Move>, k: int, r: Option<Move>)
    requires AllLegal(g, moves) && moves != []
    requires ChosenAt(g, moves[1..], k, r)
    requires RootScore(g, moves[0]) < RootScore(g, moves[1..][k])
    requires ChildMax(g, moves) == ChildMax(g, moves[1..])
    ensures ChosenAt(g, moves, k + 1, r)
  {
    assert moves[1..][k] == moves[k + 1];
    forall j | 0 <= j < k + 1
      ensures RootScore(g, moves[j]) < RootScore(g, moves[k + 1])
    {
      if j > 0 {
        assert moves[j] == moves[1..][j - 1];
      }
    }
  }

  /** The first move's score and the rest's maximum make up ChildMax. */
  lemma ChildMaxCons(g: Grid, moves: seq<Move>)
    requires AllLegal(g, moves) && moves != []
    ensures IsScore(RootScore(g, moves[0]))
    ensures ChildMax(g, moves) == Max(RootScore(g, moves[0]), ChildMax(g, moves[1..]))
  {
    RootScoreIsValue(g, moves[0]);
  }

  /** When no remaining move beats the best score so far, the selection loop keeps its choice. */
  lemma {:induction false} SelectFromKeeps(g: Grid, moves: seq<Move>, bestScore: int, best: Option<Move>)
    requires AllLegal(g, moves)
    requires ChildMax(g, moves) <= bestScore
    decreases |moves|
    ensures SelectFrom(g, moves, bestScore, best) == best
  {
    if moves != [] {
      ChildMaxCons(g, moves);
      SelectFromKeeps(g, moves[1..], bestScore, best);
    }
  }

  /**
   * When some remaining move beats the best score so far, the selection loop
   * settles on the first remaining move that attains the maximum.
   */
  lemma {:induction false} SelectFromFinds(g: Grid, moves: seq<Move>, bestScore: int, best: Option<Move>)
    requires AllLegal(g, moves)
    requires NegInf <= bestScore < ChildMax(g, moves)
    decreases |moves|
    ensures exists k :: ChosenAt(g, moves, k, SelectFrom(g, moves, bestScore, best))
  {
    var m := moves[0];
    var score := RootScore(g, m);
    ChildMaxCons(g, moves);
    var rest := ChildMax(g, moves[1..]);
    var r := SelectFrom(g, moves, bestScore, best);
    if score > bestScore {
      assert r == SelectFrom(g, moves[1..], score, Some(m));
      if rest <= score {
        SelectFromKeeps(g, moves[1..], score, Some(m));
        assert ChosenAt(g, moves, 0, r);
      } else {
        SelectFromFinds(g, moves[1..], score, Some(m));
        var k :| ChosenAt(g, moves[1..], k, r);
        ChosenAtShift(g, moves, k, r);
      }
    } else {
      assert r == SelectFrom(g, moves[1..], bestScore, best);
      SelectFromFinds(g, moves[1..], bestScore, best);
      var k :| ChosenAt(g, moves[1..], k, r);
      ChosenAtShift(g, moves, k, r);
    }
  }

  /** The AI returns None exactly when the board has no empty cell. */
  lemma SelectMoveNoneIffFull(g: Grid)
    ensures SelectMove(g).None? <==> IsDraw(g)
  {
    var ms := AvailableMoves(g);
    DrawIffNoMoves(g);
    if ms == [] {
      SelectFromKeeps(g, ms, NegInf, None);
    } else {
      ChildMaxCons(g, ms);
      SelectFromFinds(g, ms, NegInf, None);
    }
  }

  /** The AI's move is the first move, in row-major order, with the highest score. */
  lemma SelectMoveFirstBest(g: Grid)
    requires !IsDraw(g)
    ensures exists k :: IsFirstBest(g, AvailableMoves(g), k) && SelectMove(g) == Some(AvailableMoves(g)[k])
  {
    var ms := AvailableMoves(g);
    DrawIffNoMoves(g);
    ChildMaxCons(g, ms);
    SelectFromFinds(g, ms, NegInf, None);
    ChildMaxIsMaximum(g, ms);
    var k :| ChosenAt(g, ms, k, SelectFrom(g, ms, NegInf, None));
    forall j | 0 <= j < |ms|
      ensures RootScore(g, ms[j]) <= RootScore(g, ms[k])
    {
      RootScoreIsValue(g, ms[j]);
    }
    assert IsFirstBest(g, ms, k);
  }

  /**
   * In a position that is not over, the AI's move achieves the minimax value
   * of the position: its score is GameValue with the AI to move.
   */
  lemma SelectedMoveIsOptimal(g: Grid)
    requires !IsTerminal(g)
    ensures SelectMove(g).Some?
    ensures RootScore(g, SelectMove(g).value) == GameValue(g, true)
  {
    var ms := AvailableMoves(g);
    DrawIffNoMoves(g);
    ChildMaxCons(g, ms);
    SelectFromFinds(g, ms, NegInf, None);
    var k :| ChosenAt(g, ms, k, SelectFrom(g, ms, NegInf, None));
  }

  /**
   * When some move completes a line for O at once, the AI's move scores 1:
   * it wins, now or by force.
   */
  lemma TakesAWin(g: Grid, m: Move)
    requires IsLegal(g, m) && CheckWin(Place(g, m, O), O)
    ensures SelectMove(g).Some?
    ensures RootScore(g, SelectMove(g).value) == 1
  {
    var ms := AvailableMoves(g);
    assert m in ms;
    assert !IsDraw(g);
    SelectMoveFirstBest(g);
    var k :| IsFirstBest(g, ms, k) && SelectMove(g) == Some(ms[k]);
    var t :| 0 <= t < |ms| && ms[t] == m;
    assert RootScore(g, ms[t]) == 1;
    RootScoreIsValue(g, ms[k]);
  }

  /**
   * When the first available move scores 1, the AI plays it: no later move
   * can score strictly more.
   */
  lemma FirstForcedWinChosen(g: Grid)
    requires AvailableMoves(g) != []
    requires RootScore(g, AvailableMoves(g)[0]) == 1
    ensures SelectMove(g) == Some(AvailableMoves(g)[0])
  {
    var ms := AvailableMoves(g);
    DrawIffNoMoves(g);
    SelectMoveFirstBest(g);
    var k :| IsFirstBest(g, ms, k) && SelectMove(g) == Some(ms[k]);
    assert RootScore(g, ms[k]) <= RootScore(g, ms[0]);
  }

  /** When the first available move completes a line for O, the AI plays it. */
  lemma FirstWinningMoveChosen(g: Grid)
    requires AvailableMoves(g) != []
    requires CheckWin(Place(g, AvailableMoves(g)[0], O), O)
    ensures SelectMove(g) == Some(AvailableMoves(g)[0])
  {
    assert RootScore(g, AvailableMoves(g)[0]) == 1;
    FirstForcedWinChosen(g);
  }

  /**
   * get_ai_move(board), in place: each available move is written as O,
   * searched with a full window and the human to move, and written back as
   * a blank. The board is left as it was found.
   */
  method GetAiMove(board: array<char>) returns (bestMove: Option<Move>)
    requires board.Length == 9
    modifies board
    ensures board[..] == old(board[..])
    ensures bestMove == SelectMove(old(board[..]))
  {
    ghost var g: Grid := board[..];
    var bestScore := NegInf;
    bestMove := None;
    var moves := AvailableMoves(board[..]);
    for i := 0 to |moves|
      invariant board[..] == g
      invariant SelectFrom(g, moves[i..], bestScore, bestMove) == SelectMove(g)
    {
      var m := moves[i];
      PlaceUsesBlank(g, m, O);
      board[Index(m)] := O;
      assert board[..] == Place(g, m, O);
      var score := Minimax(board, NegInf, PosInf, false);
      board[Index(m)] := EMPTY;
      assert board[..] == g;
      assert moves[i..][0] == m;
      assert moves[i..][1..] == moves[i + 1..];
      if score > bestScore {
        bestScore := score;
        bestMove := Some(m);
      }
    }
  }
}
