/**
 * Concrete positions from the program's unit tests, written as 9-cell
 * strings in row-major order.
 */
module Scenarios {
  import opened Board
  import opened Evaluator
  import opened MoveSelector

  /** Each of the win shapes the tests use is recognised for its player. */
  lemma RecognisedWins()
    ensures CheckWin("XXX      ", X)
    ensures CheckWin("   OOO   ", O)
    ensures CheckWin("  X  X  X", X)
    ensures CheckWin("X   X   X", X)
    ensures CheckWin("  O O O  ", O)
  {
  }

  /** The full board of the draw test. */
  const FullBoard: Grid := "XOXXXOOXO"
  /** The same position with two cells still blank. */
  const OpenBoard: Grid := "XOXX OOX "
  /** The position of the winning-move test: O to complete its top row. */
  const WinAvailable: Grid := "OO XX X  "

  /** A full board is a draw; a board with a blank is not. */
  lemma DrawDetection()
    ensures IsDraw(FullBoard)
    ensures !IsDraw(OpenBoard)
  {
    assert OpenBoard[4] == EMPTY;
  }

  /** "XO / XO / " has five empty cells, so five distinct moves. */
  lemma FiveMoves()
    ensures |AvailableMoves("XO  XO   ")| == 5
  {
    assert "XO  XO   " == ['X', 'O', ' ', ' ', 'X', 'O', ' ', ' ', ' '];
    assert multiset("XO  XO   ")[EMPTY] == 5;
  }

  /** On WinAvailable the first empty cell, in row-major order, is the top-right corner. */
  lemma FirstMoveIsTopRight()
    ensures AvailableMoves(WinAvailable) != []
    ensures AvailableMoves(WinAvailable)[0] == Move(0, 2)
  {
    assert WinAvailable[0] != EMPTY && WinAvailable[1] != EMPTY;
    FirstBlankFirst(WinAvailable, Move(0, 2));
  }


  /** Playing the top-right corner completes O's top row. */
  lemma TopRightWins()
    ensures CheckWin(Place(WinAvailable, Move(0, 2), O), O)
  {
    assert Cell(Place(WinAvailable, Move(0, 2), O), 0, 2) == O;
  }

  /** On "OO / XX / X", the AI completes its top row. */
  lemma TakesWinningMove()
    ensures SelectMove(WinAvailable) == Some(Move(0, 2))
    ensures CheckWin(Place(WinAvailable, Move(0, 2), O), O)
  {
    FirstMoveIsTopRight();
    TopRightWins();
    FirstWinningMoveChosen(WinAvailable);
  }

  /** A full board on which X has a row: the draw test holds, yet the search scores the win. */
  const FullWonByX: Grid := "XXXOOXOXO"

  /** The search tests wins before the full board, so a winning last move is not scored as a draw. */
  lemma WinBeforeDraw(alpha: int, beta: int, maximizing: bool)
    ensures IsDraw(FullWonByX)
    ensures Pruned(FullWonByX, alpha, beta, maximizing) == -1
    ensures GameValue(FullWonByX, maximizing) == -1
  {
    assert Cell(FullWonByX, 0, 0) == X;
  }

  /**
   * "O X/XO /X  ", reached by X (1, 0), O (0, 0), X (0, 2), O (1, 1), X (2, 0).
   * The corner (2, 2) completes O's main diagonal at once, but the first blank
   * (0, 1) wins by force: it threatens both the middle column and the main
   * diagonal, and X can block only one. Scores do not depend on depth and a
   * later move replaces the best only on a strictly higher score, so the AI
   * plays (0, 1), a move that does not complete a line.
   */
  const Fork: Grid := "O XXO X  "

  /** Fork after O takes (0, 1); X must fill (1, 2), (2, 1) or (2, 2). */
  const AfterFork: Grid := "OOXXO X  "

  /** AfterFork once X has filled (1, 2). */
  const ForkRightReply: Grid := "OOXXOXX  "
  /** AfterFork once X has filled (2, 1). */
  const ForkBottomReply: Grid := "OOXXO XX "
  /** AfterFork once X has filled (2, 2). */
  const ForkCornerReply: Grid := "OOXXO X X"

  /** A minimizing node whose every child is worth v is worth v. */
  lemma ChildMinConstant(g: Grid, v: int)
    requires AvailableMoves(g) != []
    requires forall m :: IsLegal(g, m) ==> GameValue(Place(g, m, X), true) == v
    ensures ChildMin(g, AvailableMoves(g)) == v
  {
    var ms := AvailableMoves(g);
    ChildMinIsMinimum(g, ms);
    var t :| 0 <= t < |ms| && ChildMin(g, ms) == GameValue(Place(g, ms[t], X), true);
    assert IsLegal(g, ms[t]);
  }

  /** An open position where some move completes a line for O is worth 1 with O to move. */
  lemma ReplyWins(h: Grid, n: Move)
    requires !IsTerminal(h) && IsLegal(h, n)
    requires CheckWin(Place(h, n, O), O)
    ensures GameValue(h, true) == 1
  {
    var ms := AvailableMoves(h);
    ChildMaxIsMaximum(h, ms);
    assert n in ms;
    var t :| 0 <= t < |ms| && ms[t] == n;
    assert GameValue(Place(h, ms[t], O), false) == 1;
  }

  /** "OOX/XOX/X  ": no line yet, and the board is not full. */
  lemma RightReplyOpen()
    ensures !IsTerminal(ForkRightReply)
  {
    assert ForkRightReply == ['O', 'O', 'X', 'X', 'O', 'X', 'X', ' ', ' '];
    assert ForkRightReply[8] == EMPTY;
  }

  /** "OOX/XO /XX ": no line yet, and the board is not full. */
  lemma BottomReplyOpen()
    ensures !IsTerminal(ForkBottomReply)
  {
    assert ForkBottomReply == ['O', 'O', 'X', 'X', 'O', ' ', 'X', 'X', ' '];
    assert ForkBottomReply[8] == EMPTY;
  }

  /** "OOX/XO /X X": no line yet, and the board is not full. */
  lemma CornerReplyOpen()
    ensures !IsTerminal(ForkCornerReply)
  {
    assert ForkCornerReply == ['O', 'O', 'X', 'X', 'O', ' ', 'X', ' ', 'X'];
    assert ForkCornerReply[7] == EMPTY;
  }

  /** X fills (1, 2); O's reply (2, 2) completes the main diagonal. */
  lemma RightReplyLoses()
    ensures GameValue(ForkRightReply, true) == 1
  {
    RightReplyOpen();
    assert Cell(Place(ForkRightReply, Move(2, 2), O), 2, 2) == O;
    ReplyWins(ForkRightReply, Move(2, 2));
  }

  /** X fills (2, 1); O's reply (2, 2) completes the main diagonal. */
  lemma BottomReplyLoses()
    ensures GameValue(ForkBottomReply, true) == 1
  {
    BottomReplyOpen();
    assert Cell(Place(ForkBottomReply, Move(2, 2), O), 2, 2) == O;
    ReplyWins(ForkBottomReply, Move(2, 2));
  }

  /** X fills (2, 2); O's reply (2, 1) completes the middle column. */
  lemma CornerReplyLoses()
    ensures GameValue(ForkCornerReply, true) == 1
  {
    CornerReplyOpen();
    assert Cell(Place(ForkCornerReply, Move(2, 1), O), 2, 1) == O;
    ReplyWins(ForkCornerReply, Move(2, 1));
  }

  /** Whichever threat X blocks, O completes a line with the other. */
  lemma EveryReplyLoses(m: Move)
    requires IsLegal(AfterFork, m)
    ensures GameValue(Place(AfterFork, m, X), true) == 1
  {
    assert Index(m) == 5 || Index(m) == 7 || Index(m) == 8;
    if Index(m) == 5 {
      assert m == Move(1, 2);
      assert Place(AfterFork, m, X) == ForkRightReply;
      RightReplyLoses();
    } else if Index(m) == 7 {
      assert m == Move(2, 1);
      assert Place(AfterFork, m, X) == ForkBottomReply;
      BottomReplyLoses();
    } else {
      assert m == Move(2, 2);
      assert Place(AfterFork, m, X) == ForkCornerReply;
      CornerReplyLoses();
    }
  }

  /** On Fork, (2, 2) completes O's main diagonal at once, while (0, 1) completes no line. */
  lemma ImmediateWinOnDiagonal()
    ensures IsLegal(Fork, Move(2, 2)) && CheckWin(Place(Fork, Move(2, 2), O), O)
    ensures !CheckWin(Place(Fork, Move(0, 1), O), O)
  {
    assert Cell(Place(Fork, Move(2, 2), O), 2, 2) == O;
    assert Place(Fork, Move(0, 1), O) == AfterFork;
  }

  /** O takes (0, 1) on Fork: no line yet, and three cells stay blank. */
  lemma ForkTaken()
    ensures IsLegal(Fork, Move(0, 1))
    ensures Place(Fork, Move(0, 1), O) == AfterFork
    ensures !IsTerminal(AfterFork)
  {
    assert Place(Fork, Move(0, 1), O) == AfterFork;
    assert AfterFork[8] == EMPTY;
  }

  /** Taking the first blank, (0, 1), wins by force: all three of X's replies lose. */
  lemma ForkWinsByForce()
    ensures IsLegal(Fork, Move(0, 1))
    ensures Place(Fork, Move(0, 1), O) == AfterFork
    ensures GameValue(AfterFork, false) == 1
  {
    ForkTaken();
    forall m | IsLegal(AfterFork, m)
      ensures GameValue(Place(AfterFork, m, X), true) == 1
    {
      EveryReplyLoses(m);
    }
    ChildMinConstant(AfterFork, 1);
  }

  /** On Fork the first available move is (0, 1). */
  lemma ForkFirstMove()
    ensures AvailableMoves(Fork) != [] && AvailableMoves(Fork)[0] == Move(0, 1)
  {
    assert Fork[0] != EMPTY && Fork[1] == EMPTY;
    FirstBlankFirst(Fork, Move(0, 1));
  }

  /** The AI scores (0, 1) on Fork as a win. */
  lemma ForkFirstMoveScores()
    ensures IsLegal(Fork, Move(0, 1)) && RootScore(Fork, Move(0, 1)) == 1
  {
    ForkWinsByForce();
    RootScoreIsValue(Fork, Move(0, 1));
  }

  /**
   * The AI plays (0, 1) on Fork although (2, 2) would complete a line at
   * once: a win is a win, whatever its depth, and the earlier move is kept.
   */
  lemma ForcedWinBeforeImmediateWin()
    ensures IsLegal(Fork, Move(2, 2)) && CheckWin(Place(Fork, Move(2, 2), O), O)
    ensures SelectMove(Fork) == Some(Move(0, 1))
    ensures !CheckWin(Place(Fork, Move(0, 1), O), O)
  {
    ImmediateWinOnDiagonal();
    ForkFirstMove();
    ForkFirstMoveScores();
    FirstForcedWinChosen(Fork);
  }
}
