# Tic-tac-toe minimax engine, modelled in Dafny

This project models the game-tree search at the heart of a console
tic-tac-toe game. A human plays X, the AI plays O and the blank square is
`' '`. The AI picks its move by running minimax with alpha-beta pruning
over a 3x3 board, and it scores a position 1 when O wins, -1 when X wins
and 0 for a draw. The model has four modules:

- `Board` (board.dfy) covers the board, win detection (`check_win`), the
  full-board test (`is_draw`) and the row-major list of empty cells
  (`get_available_moves`). The board is a 9-character sequence in row-major
  order (`Grid`), and cell (i, j) sits at index 3i + j.
- `Evaluator` (evaluator.dfy) covers `minimax`. It gives three definitions
  of the value of a position:
  - `GameValue`, plain minimax over the whole game tree, used as the
    reference;
  - `Pruned`, `PrunedMax` and `PrunedMin`, the program's alpha-beta loop
    written as functions;
  - the method `Minimax` and its two loop methods, which work in place on a
    9-cell `array<char>`. Like the program, they write a mark, recurse and
    write the blank back.

  `Minimax` is proved to return `Pruned` and to leave the board exactly as
  it found it. `Pruned` is proved to satisfy the fail-soft alpha-beta
  property against `GameValue`, so with the full window it returns the
  minimax value.
- `MoveSelector` (movesel.dfy) covers `get_ai_move`. `SelectMove` states
  which move is chosen: the first move, in row-major order, with the
  highest full-window score. The method `GetAiMove` performs the in-place
  loop and is proved to return `SelectMove`. On a position that is not over,
  the chosen move is proved to achieve the minimax value.
- `Scenarios` (scenarios.dfy) covers the unit tests' positions and two
  exhibits, one of the order of the terminal tests and one of the tie-break
  between moves.

The two infinities that seed the search, `-float('inf')` and
`float('inf')`, are `NegInf = -2` and `PosInf = 2`. Every score lies in
[-1, 1], so these two constants compare with scores exactly as the
infinities do.

## Model

| member | source | states |
|---|---|---|
| Board.CheckWin | tic_tac_toe/__init__.py:48-57 | The row and column tests of the loop and the two diagonal tests, in the program's order. What they mean is stated by `CheckWinIffLine`. |
| Board.CheckWinIffLine | tic_tac_toe/__init__.py:38-57 | `check_win(board, p)` holds exactly when one of the eight lines (three rows, three columns, two diagonals) is filled with `p`. |
| Board.IsDraw | tic_tac_toe/__init__.py:60-69 | `is_draw` holds exactly when the board has no empty cell. |
| Board.MovesFrom | tic_tac_toe/__init__.py:81 | The comprehension over rows, then columns, keeping blank cells. Its properties are stated by the four `MovesFrom` lemmas below. |
| Board.MovesFromLegal | tic_tac_toe/__init__.py:81 | Every move listed from cell (i, j) on is a legal move at or after that cell. |
| Board.MovesFromIncreasing | tic_tac_toe/__init__.py:81 | The moves listed from cell (i, j) on are in strictly increasing row-major order. |
| Board.MovesFromComplete | tic_tac_toe/__init__.py:81 | Every legal move at or after cell (i, j) is listed. |
| Board.MovesFromCount | tic_tac_toe/__init__.py:81 | As many moves are listed from cell (i, j) on as there are blanks from that cell on. |
| Board.AvailableMoves | tic_tac_toe/__init__.py:72-81 | The moves are the empty cells: each is in bounds and blank, every blank cell is listed, the list is in strictly increasing row-major order (so it has no duplicates), and its length is the number of blanks. |
| Board.DrawIffNoMoves | tic_tac_toe/__init__.py:60-81 | The board is a draw exactly when there are no available moves. |
| Board.FirstBlankFirst | tic_tac_toe/__init__.py:81 | The first blank cell in row-major order is the first available move. |
| Board.PlaceUsesBlank | tic_tac_toe/__init__.py:108-112 | Writing a mark on an empty cell uses up exactly one blank, and writing the blank back restores the board. |
| Evaluator.GameValue | tic_tac_toe/__init__.py:93-102 | The reference minimax value of every position is a score, so it lies in {-1, 0, 1}. |
| Evaluator.IsTerminal | tic_tac_toe/__init__.py:96-102 | The three terminal tests of `minimax`. A position that passes none of them has at least one available move, so the search loop runs at least once. |
| Evaluator.ChildMaxIsMaximum | tic_tac_toe/__init__.py:104-119 | The maximizing player's value is the maximum over the children: no child scores higher, and one child attains it. |
| Evaluator.ChildMinIsMinimum | tic_tac_toe/__init__.py:120-132 | The minimizing player's value is the minimum over the children: no child scores lower, and one child attains it. |
| Evaluator.Pruned | tic_tac_toe/__init__.py:84-132 | The alpha-beta search returns a score in [-1, 1] for every window, because the first child's score replaces the infinite start value. |
| Evaluator.PrunedMax | tic_tac_toe/__init__.py:104-119 | The maximizing loop returns its start value or a higher score, and at least -1 once one move has been tried. |
| Evaluator.PrunedMin | tic_tac_toe/__init__.py:120-132 | The minimizing loop returns its start value or a lower score, and at most 1 once one move has been tried. |
| Evaluator.AlphaBetaWindow | tic_tac_toe/__init__.py:84-132 | Fail-soft alpha-beta. For a window with -inf <= alpha < beta <= +inf (NegInf <= alpha < beta <= PosInf), the search returns the exact minimax value when that value lies strictly inside the window. It returns a value <= alpha when the true value is <= alpha, and a value >= beta when the true value is >= beta. |
| Evaluator.PrunedMaxWindow | tic_tac_toe/__init__.py:104-119 | The window property holds part way through the maximizing loop, measured against the running maximum of the true values. |
| Evaluator.PrunedMinWindow | tic_tac_toe/__init__.py:120-132 | The window property holds part way through the minimizing loop, measured against the running minimum of the true values. |
| Evaluator.FullWindow | tic_tac_toe/__init__.py:84-132 | With the window (-inf, +inf), pruning changes nothing: the search returns the minimax value. |
| Evaluator.Minimax | tic_tac_toe/__init__.py:84-132 | The in-place search leaves the board as it found it. It returns the functional search's score, which is 1, -1 or 0 in the terminal cases in the program's order, and always a score. |
| Evaluator.MaximizingLoop | tic_tac_toe/__init__.py:104-119 | For each move it writes O, recurses and writes the blank back, and it breaks once beta <= alpha. It returns the maximizing fold and leaves the board unchanged. |
| Evaluator.MinimizingLoop | tic_tac_toe/__init__.py:120-132 | For each move it writes X, recurses and writes the blank back, and it breaks once beta <= alpha. It returns the minimizing fold and leaves the board unchanged. |
| MoveSelector.RootScore | tic_tac_toe/__init__.py:150-154 | The score `get_ai_move` gives a move, a full-window search with X to move, is always in {-1, 0, 1}. |
| MoveSelector.RootScoreIsValue | tic_tac_toe/__init__.py:150-153 | The score the AI gives a move is the exact minimax value of the resulting position with X to move. |
| MoveSelector.SelectFrom | tic_tac_toe/__init__.py:146-161 | The selection loop returns either its starting choice or one of the moves it scanned. |
| MoveSelector.SelectMove | tic_tac_toe/__init__.py:135-161 | A move the AI returns is legal and is one of the available moves. |
| MoveSelector.SelectFromKeeps | tic_tac_toe/__init__.py:156-158 | When no remaining move scores strictly above the best so far, the choice does not change. |
| MoveSelector.SelectFromFinds | tic_tac_toe/__init__.py:146-161 | When some remaining move beats the best so far, the loop settles on the first move that attains the maximum score. |
| MoveSelector.SelectMoveNoneIffFull | tic_tac_toe/__init__.py:144-161 | `get_ai_move` returns None exactly when the board is full. |
| MoveSelector.SelectMoveFirstBest | tic_tac_toe/__init__.py:144-161 | On a board with an empty cell, the chosen move has the highest score, and every earlier move in row-major order scores strictly lower. Ties therefore go to the earliest move. |
| MoveSelector.SelectedMoveIsOptimal | tic_tac_toe/__init__.py:135-161 | In a position that is not over, the AI's move achieves the minimax value of the position with the AI to move. |
| MoveSelector.TakesAWin | tic_tac_toe/__init__.py:135-161 | When some move completes a line for O at once, the chosen move scores 1. |
| MoveSelector.FirstForcedWinChosen | tic_tac_toe/__init__.py:156-158 | When the first available move scores 1, it is the move returned. |
| MoveSelector.FirstWinningMoveChosen | tic_tac_toe/__init__.py:156-158 | When the first available move wins at once, it is the move returned. |
| MoveSelector.GetAiMove | tic_tac_toe/__init__.py:135-161 | The in-place loop leaves the board as it found it and returns `SelectMove` of that board. |
| Scenarios.RecognisedWins | tests/test_board_logic.py:19-38 | A row, column, main diagonal or anti-diagonal of one mark is a win for that mark. |
| Scenarios.DrawDetection | tests/test_board_logic.py:43-58 | "XOX/XXO/OXO" is a draw and "XOX/X O/OX " is not. |
| Scenarios.FiveMoves | tests/test_board_logic.py:63-72 | "XO / XO/   " has five available moves. |
| Scenarios.FirstMoveIsTopRight | tests/test_ai_behavior.py:26-32 | On "OO /XX /X  " the first available move in row-major order is (0, 2). |
| Scenarios.TopRightWins | tests/test_ai_behavior.py:34-35 | Playing (0, 2) on "OO /XX /X  " completes O's top row. |
| Scenarios.TakesWinningMove | tests/test_ai_behavior.py:26-35 | On "OO /XX /X  " the AI plays (0, 2), and that move completes O's top row. |
| Scenarios.WinBeforeDraw | tic_tac_toe/__init__.py:60-69 | The full board "XXX/OOX/OXO" passes the draw test even though X has a row. Both the search and the reference still score it -1, because wins are tested before the full board. |
| Scenarios.ImmediateWinOnDiagonal | tests/test_ai_behavior.py:24 | On "O X/XO /X  " the move (2, 2) completes O's main diagonal at once, and (0, 1) completes no line. |
| Scenarios.ForkWinsByForce | tic_tac_toe/__init__.py:120-132 | After O takes (0, 1) on "O X/XO /X  ", all three of X's replies lose, so the position is worth 1 with X to move. |
| Scenarios.ForkFirstMove | tic_tac_toe/__init__.py:81 | On "O X/XO /X  " the first available move in row-major order is (0, 1). |
| Scenarios.ForkFirstMoveScores | tic_tac_toe/__init__.py:150-154 | The AI scores (0, 1) on "O X/XO /X  " as 1, a win. |
| Scenarios.ForcedWinBeforeImmediateWin | tic_tac_toe/__init__.py:144-161 | On "O X/XO /X  " the AI plays (0, 1), which completes no line, although (2, 2) would win at once. |

## Left out

- `print_board` and `main`: console I/O and the interactive game loop, which are not part of the search.
- Floating point: the infinities are the integers -2 and 2. Alpha and beta are integers. With the infinities mapped this way, they cover every value the program passes.
- The board is one flat sequence, or array, of 9 characters instead of a list of three row lists. Cell (i, j) is index 3i + j. No row is shared between boards, so aliasing between rows is not modelled.
- `get_ai_move` on a board with no empty cell returns None, as the code does. The model states this with `Option` and does not raise an error.
- `get_ai_move` does not test whether the game is already over. The model keeps this: `SelectMove` scores moves on any board that has a blank, and the optimality lemma assumes a position that is not over.
- The empty-board test, which expects a corner or the centre as the first move, is not proved. It needs the value of the whole nine-move game tree, which is too large to compute inside the verifier.
- The symmetry test, where "X/ O/" is scored with each side to move, is not proved. It needs the value of a seven-move game tree.
- Running time and the number of nodes pruning saves are not modelled. Only the returned values are.
- TakesAWin: states that the chosen move scores 1, not that it completes a line. The heading of the winning-move test says the AI "takes immediate win when available", but scores do not depend on depth and a later move replaces the best only on a strictly higher score. An earlier move that wins by force is therefore kept over a later move that wins at once. `Scenarios.ForcedWinBeforeImmediateWin` shows this on "O X/XO /X  ", a position reached by X (1, 0), O (0, 0), X (0, 2), O (1, 1), X (2, 0). The test's own board passes only because there the winning cell comes first.
