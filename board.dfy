/**
 * State predicates of the tic-tac-toe core: win detection, draw detection
 * and the enumeration of legal moves, all pure functions of a board snapshot.
 *
 * A board is the 3x3 grid of the program, kept as its nine cells in
 * row-major order: cell (i, j) is at position 3 * i + j.
 */
module Board {

  /** The human's mark. */
  const X: char := 'X'
  /** The AI's mark. */
  const O: char := 'O'
  /** A blank square. */
  const EMPTY: char := ' '

  /** A snapshot of the board: nine cells, row 0 first. */
  type Grid = g: seq<char> | |g| == 9 witness "         "

  /** A (row, col) coordinate pair, as the program's tuples. */
  datatype Move = Move(row: int, col: int)

  predicate InBounds(m: Move) {
    0 <= m.row < 3 && 0 <= m.col < 3
  }

  /**
   * Position of cell (i, j) in the row-major snapshot, 3 * i + j. It is
   * written as a sum because the product with a literal makes the prover's
   * search for CheckWinIffLine far more expensive.
   */
  function Pos(i: int, j: int): int {
    i + i + i + j
  }

  /** Position of a move's cell. */
  function Index(m: Move): int {
    Pos(m.row, m.col)
  }

  function Cell(g: Grid, i: int, j: int): char
    requires 0 <= i < 3 && 0 <= j < 3
  {
    g[Pos(i, j)]
  }

  /** A move is legal iff it names a cell of the grid that is blank. */
  predicate IsLegal(g: Grid, m: Move) {
    InBounds(m) && g[Index(m)] == EMPTY
  }

  /** The snapshot after writing `c` into the cell of `m`. */
  function Place(g: Grid, m: Move, c: char): Grid
    requires InBounds(m)
  {
    g[Index(m) := c]
  }

  /** The number of blank cells in a board, or in a stretch of one. */
  function CountEmpty(s: seq<char>): nat {
    multiset(s)[EMPTY]
  }

  // ---------------------------------------------------------------------
  // check_win
  // ---------------------------------------------------------------------

  predicate RowFull(g: Grid, p: char, i: int)
    requires 0 <= i < 3
  {
    Cell(g, i, 0) == p && Cell(g, i, 1) == p && Cell(g, i, 2) == p
  }

  predicate ColumnFull(g: Grid, p: char, i: int)
    requires 0 <= i < 3
  {
    Cell(g, 0, i) == p && Cell(g, 1, i) == p && Cell(g, 2, i) == p
  }

  /** Top-left to bottom-right. */
  predicate MainDiagonalFull(g: Grid, p: char) {
    Cell(g, 0, 0) == p && Cell(g, 1, 1) == p && Cell(g, 2, 2) == p
  }

  /** Top-right to bottom-left. */
  predicate AntiDiagonalFull(g: Grid, p: char) {
    Cell(g, 0, 2) == p && Cell(g, 1, 1) == p && Cell(g, 2, 0) == p
  }

  /** Three cells in a straight line, by their row-major positions. */
  datatype Line = Line(first: int, second: int, third: int)

  /**
   * The eight winning lines, written out independently of CheckWin:
   * the three rows, the three columns, the main diagonal, the anti-diagonal.
   */
  const WinningLines: seq<Line> := [
    Line(0, 1, 2), Line(3, 4, 5), Line(6, 7, 8),
    Line(0, 3, 6), Line(1, 4, 7), Line(2, 5, 8),
    Line(0, 4, 8), Line(2, 4, 6)
  ]

  /** Every cell of `line` lies on the grid and holds `p`. */
  predicate Filled(g: Grid, p: char, line: Line) {
    && 0 <= line.first < 9 && g[line.first] == p
    && 0 <= line.second < 9 && g[line.second] == p
    && 0 <= line.third < 9 && g[line.third] == p
  }

  /** `p` fills one of the eight winning lines. */
  predicate HasLine(g: Grid, p: char) {
    exists t :: 0 <= t < |WinningLines| && Filled(g, p, WinningLines[t])
  }

  /**
   * check_win: the loop over i tests row i and then column i, for i = 0, 1, 2,
   * and the two diagonals are tested last (CheckWinIffLine gives its meaning).
   */
  predicate CheckWin(g: Grid, p: char) {
    RowFull(g, p, 0) || ColumnFull(g, p, 0)
    || RowFull(g, p, 1) || ColumnFull(g, p, 1)
    || RowFull(g, p, 2) || ColumnFull(g, p, 2)
    || MainDiagonalFull(g, p) || AntiDiagonalFull(g, p)
  }

  /** check_win is true exactly when `p` fills one of the eight winning lines. */
  lemma CheckWinIffLine(g: Grid, p: char)
    ensures CheckWin(g, p) <==> HasLine(g, p)
  {
    if HasLine(g, p) {
      var t :| 0 <= t < |WinningLines| && Filled(g, p, WinningLines[t]);
      LineIsRowColumnOrDiagonal(g, p, t);
    }
    if RowFull(g, p, 0) { assert Filled(g, p, WinningLines[0]); }
    if RowFull(g, p, 1) { assert Filled(g, p, WinningLines[1]); }
    if RowFull(g, p, 2) { assert Filled(g, p, WinningLines[2]); }
    if ColumnFull(g, p, 0) { assert Filled(g, p, WinningLines[3]); }
    if ColumnFull(g, p, 1) { assert Filled(g, p, WinningLines[4]); }
    if ColumnFull(g, p, 2) { assert Filled(g, p, WinningLines[5]); }
    if MainDiagonalFull(g, p) { assert Filled(g, p, WinningLines[6]); }
    if AntiDiagonalFull(g, p) { assert Filled(g, p, WinningLines[7]); }
  }

  lemma LineIsRowColumnOrDiagonal(g: Grid, p: char, t: int)
    requires 0 <= t < |WinningLines| && Filled(g, p, WinningLines[t])
    ensures RowFull(g, p, 0) || RowFull(g, p, 1) || RowFull(g, p, 2)
      || ColumnFull(g, p, 0) || ColumnFull(g, p, 1) || ColumnFull(g, p, 2)
      || MainDiagonalFull(g, p) || AntiDiagonalFull(g, p)
  {
    if t == 0 { assert RowFull(g, p, 0); }
    else if t == 1 { assert RowFull(g, p, 1); }
    else if t == 2 { assert RowFull(g, p, 2); }
    else if t == 3 { assert ColumnFull(g, p, 0); }
    else if t == 4 { assert ColumnFull(g, p, 1); }
    else if t == 5 { assert ColumnFull(g, p, 2); }
    else if t == 6 { assert MainDiagonalFull(g, p); }
    else { assert AntiDiagonalFull(g, p); }
  }

  // ---------------------------------------------------------------------
  // is_draw
  // ---------------------------------------------------------------------

  /**
   * is_draw: no cell is blank. Winners are not consulted, so a full board
   * that holds a winning line is a draw by this predicate too.
   */
  function IsDraw(g: Grid): (r: bool)
    ensures r <==> CountEmpty(g) == 0
  {
    forall k :: 0 <= k < 9 ==> g[k] != EMPTY
  }

  // ---------------------------------------------------------------------
  // get_available_moves
  // ---------------------------------------------------------------------

  /** The move for cell (i, j) if that cell is blank. */
  function CellMoves(g: Grid, i: int, j: int): seq<Move>
    requires 0 <= i < 3 && 0 <= j < 3
  {
    if Cell(g, i, j) == EMPTY then [Move(i, j)] else []
  }

  /**
   * The comprehension `for i in range(3) for j in range(3) if cell is blank`,
   * resumed at row i, column j; after column 2 it goes on with the next row.
   */
  function MovesFrom(g: Grid, i: int, j: int): seq<Move>
    requires 0 <= i <= 3 && 0 <= j < 3 && (i == 3 ==> j == 0)
    decreases 9 - Pos(i, j)
  {
    if i == 3 then []
    else CellMoves(g, i, j) + MovesFrom(g, if j == 2 then i + 1 else i, if j == 2 then 0 else j + 1)
  }

  /** From row i, column j on, the comprehension lists only blank cells at or after position Pos(i, j). */
  lemma {:induction false} MovesFromLegal(g: Grid, i: int, j: int)
    requires 0 <= i <= 3 && 0 <= j < 3 && (i == 3 ==> j == 0)
    decreases 9 - Pos(i, j)
    ensures forall m :: m in MovesFrom(g, i, j) ==> IsLegal(g, m) && Pos(i, j) <= Index(m)
  {
    if i < 3 {
      MovesFromLegal(g, if j == 2 then i + 1 else i, if j == 2 then 0 else j + 1);
    }
  }

  /** From row i, column j on, the comprehension lists cells in strictly increasing position. */
  lemma {:induction false} MovesFromIncreasing(g: Grid, i: int, j: int)
    requires 0 <= i <= 3 && 0 <= j < 3 && (i == 3 ==> j == 0)
    decreases 9 - Pos(i, j)
    ensures forall t, u :: 0 <= t < u < |MovesFrom(g, i, j)| ==>
      Index(MovesFrom(g, i, j)[t]) < Index(MovesFrom(g, i, j)[u])
  {
    if i < 3 {
      var i', j' := if j == 2 then i + 1 else i, if j == 2 then 0 else j + 1;
      MovesFromIncreasing(g, i', j');
      MovesFromLegal(g, i', j');
      var head, rest := CellMoves(g, i, j), MovesFrom(g, i', j');
      var r := head + rest;
      assert r == MovesFrom(g, i, j);
      forall t, u | 0 <= t < u < |r|
        ensures Index(r[t]) < Index(r[u])
      {
        assert r[u] == rest[u - |head|] && r[u] in rest;
        if t >= |head| {
          assert r[t] == rest[t - |head|];
        } else {
          assert r[t] == Move(i, j);
        }
      }
    }
  }

  /** From row i, column j on, the comprehension lists every blank cell at or after position Pos(i, j). */
  lemma {:induction false} MovesFromComplete(g: Grid, i: int, j: int)
    requires 0 <= i <= 3 && 0 <= j < 3 && (i == 3 ==> j == 0)
    decreases 9 - Pos(i, j)
    ensures forall m :: IsLegal(g, m) && Pos(i, j) <= Index(m) ==> m in MovesFrom(g, i, j)
  {
    if i < 3 {
      var i', j' := if j == 2 then i + 1 else i, if j == 2 then 0 else j + 1;
      MovesFromComplete(g, i', j');
      forall m | IsLegal(g, m) && Pos(i, j) <= Index(m)
        ensures m in MovesFrom(g, i, j)
      {
        if Index(m) == Pos(i, j) {
          assert m == Move(i, j);
          assert m in CellMoves(g, i, j);
        } else {
          assert m in MovesFrom(g, i', j');
        }
      }
    }
  }

  lemma CountEmptyCons(s: seq<char>)
    requires s != []
    ensures CountEmpty(s) == (if s[0] == EMPTY then 1 else 0) + CountEmpty(s[1..])
  {
    assert s == [s[0]] + s[1..];
  }

  /** As many moves are listed from row i, column j on as there are blanks from position Pos(i, j) on. */
  lemma {:induction false} MovesFromCount(g: Grid, i: int, j: int)
    requires 0 <= i <= 3 && 0 <= j < 3 && (i == 3 ==> j == 0)
    decreases 9 - Pos(i, j)
    ensures |MovesFrom(g, i, j)| == CountEmpty(g[Pos(i, j)..])
  {
    if i < 3 {
      var i', j' := if j == 2 then i + 1 else i, if j == 2 then 0 else j + 1;
      MovesFromCount(g, i', j');
      var k := Pos(i, j);
      assert Pos(i', j') == k + 1;
      assert |MovesFrom(g, i, j)| == |CellMoves(g, i, j)| + |MovesFrom(g, i', j')|;
      assert |CellMoves(g, i, j)| == if g[k] == EMPTY then 1 else 0;
      CountEmptyCons(g[k..]);
      assert g[k..][1..] == g[k + 1..];
    }
  }

  /**
   * get_available_moves: exactly the blank cells, in row-major order
   * (strictly increasing, hence without duplicates); as many as there are
   * blank cells.
   */
  function AvailableMoves(g: Grid): (r: seq<Move>)
    ensures forall t :: 0 <= t < |r| ==> IsLegal(g, r[t])
    ensures forall m :: IsLegal(g, m) ==> m in r
    ensures forall t, u :: 0 <= t < u < |r| ==> Index(r[t]) < Index(r[u])
    ensures forall t, u :: 0 <= t < u < |r| ==> r[t] != r[u]
    ensures |r| == CountEmpty(g)
  {
    assert g[0..] == g;
    MovesFromLegal(g, 0, 0);
    MovesFromIncreasing(g, 0, 0);
    MovesFromComplete(g, 0, 0);
    MovesFromCount(g, 0, 0);
    MovesFrom(g, 0, 0)
  }

  /** The first blank cell in row-major order heads the list of available moves. */
  lemma FirstBlankFirst(g: Grid, m: Move)
    requires IsLegal(g, m)
    requires forall k :: 0 <= k < Index(m) ==> g[k] != EMPTY
    ensures AvailableMoves(g) != [] && AvailableMoves(g)[0] == m
  {
    var ms := AvailableMoves(g);
    assert m in ms;
    var t :| 0 <= t < |ms| && ms[t] == m;
    assert Index(ms[0]) <= Index(m);
    assert IsLegal(g, ms[0]);
  }

  /** A board is a draw exactly when no move is left. */
  lemma DrawIffNoMoves(g: Grid)
    ensures IsDraw(g) <==> AvailableMoves(g) == []
  {
  }

  /** Placing a mark on a legal cell uses up one blank cell. */
  lemma PlaceUsesBlank(g: Grid, m: Move, c: char)
    requires IsLegal(g, m) && c != EMPTY
    ensures CountEmpty(Place(g, m, c)) == CountEmpty(g) - 1
    ensures Place(g, m, c)[Index(m) := EMPTY] == g
  {
  }
}
