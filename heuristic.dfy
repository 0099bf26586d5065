/** The hand-written board evaluation of both minimax engines
    (alphaconnect4/engines/minimax_engine.py and minimax/minimax_engine.py carry
    the same `evaluate_window` and `score_position`). A window is a line of
    four cells; a position scores 3 per own piece in the centre column plus
    the score of every horizontal, vertical and diagonal window. */
module Heuristic {
  import opened Common
  import opened Grid

  /** `evaluate_window(window, piece)`: 100 for four own pieces, else 5 for
      three and an empty cell, else 2 for two and two empty cells; 4 less when
      the opponent has three and an empty cell. The opponent is the player
      unless `piece` is the player's. */
  function EvaluateWindow(window: seq<int>, piece: int): (score: int)
    ensures -4 <= score <= 100
  {
    var opp := if piece == PLAYER_PIECE then AI_PIECE else PLAYER_PIECE;
    var own :=
      if Count(window, piece) == 4 then 100
      else if Count(window, piece) == 3 && Count(window, EMPTY) == 1 then 5
      else if Count(window, piece) == 2 && Count(window, EMPTY) == 2 then 2
      else 0;
    own - (if Count(window, opp) == 3 && Count(window, EMPTY) == 1 then 4 else 0)
  }

  /** A window of four scores the full 100 exactly when all four cells hold
      the piece. */
  lemma WindowOfFour(w: seq<int>, piece: int)
    requires |w| == 4 && (piece == PLAYER_PIECE || piece == AI_PIECE)
    ensures EvaluateWindow(w, piece) == 100 <==> w == [piece, piece, piece, piece]
  {
    var opp := if piece == PLAYER_PIECE then AI_PIECE else PLAYER_PIECE;
    CountFour(w, piece);
    CountFour(w, opp);
    CountFour(w, EMPTY);
  }

  /** A line of four of the piece is worth 100 to the heuristic. */
  lemma FourScoresHundred(b: Cells, piece: int, d: Direction, r: int, c: int)
    requires FourAt(b, piece, d, r, c) && (piece == PLAYER_PIECE || piece == AI_PIECE)
    ensures EvaluateWindow(Line(b, d, r, c), piece) == 100
  {
    WindowOfFour(Line(b, d, r, c), piece);
  }

  /** How many outer and inner iterations the double loop of each direction
      makes, and the start of the window at outer index o, inner index i:
      rows then columns for horizontal windows, columns then rows for vertical
      ones, and for the diagonals the lower-left and upper-left corners. */
  function Outer(d: Direction): nat {
    match d
    case Horizontal => 6
    case Vertical => 7
    case Diagonal => 3
    case AntiDiagonal => 3
  }

  function Inner(d: Direction): nat {
    if d == Vertical then 3 else 4
  }

  function Start(d: Direction, o: int, i: int): (int, int) {
    match d
    case Horizontal => (o, i)
    case Vertical => (i, o)
    case Diagonal => (o, i)
    case AntiDiagonal => (o + 3, i)
  }

  lemma StartFits(d: Direction, o: int, i: int)
    requires 0 <= o < Outer(d) && 0 <= i < Inner(d)
    ensures Fits(d, Start(d, o, i).0, Start(d, o, i).1)
  {
  }

  /** The window at outer index o and inner index i. */
  function Window(b: Cells, d: Direction, o: int, i: int): (w: seq<int>)
    requires 0 <= o < Outer(d) && 0 <= i < Inner(d)
    ensures |w| == 4
  {
    StartFits(d, o, i);
    Line(b, d, Start(d, o, i).0, Start(d, o, i).1)
  }

  /** The windows of one outer iteration, the first n of them, scored. */
  function InnerSum(b: Cells, piece: int, d: Direction, o: int, n: nat): int
    requires 0 <= o < Outer(d) && n <= Inner(d)
  {
    if n == 0 then 0 else InnerSum(b, piece, d, o, n - 1) + EvaluateWindow(Window(b, d, o, n - 1), piece)
  }

  /** The windows of the first m outer iterations of direction d, scored. */
  function OuterSum(b: Cells, piece: int, d: Direction, m: nat): int
    requires m <= Outer(d)
  {
    if m == 0 then 0 else OuterSum(b, piece, d, m - 1) + InnerSum(b, piece, d, m - 1, Inner(d))
  }

  /** Column c from bottom to top: `board[:, c]`. */
  function Column(b: Cells, c: int): (col: seq<int>)
    requires 0 <= c < COLS
    ensures |col| == ROWS && forall r | 0 <= r < ROWS :: col[r] == At(b, r, c)
  {
    seq(ROWS, r requires 0 <= r < ROWS => At(b, r, c))
  }

  /** What `score_position(piece)` computes: three per own piece in the
      centre column plus the score of every window in the four directions. */
  function PositionScore(b: Cells, piece: int): int {
    3 * Count(Column(b, COLS / 2), piece)
    + OuterSum(b, piece, Horizontal, 6) + OuterSum(b, piece, Vertical, 7)
    + OuterSum(b, piece, Diagonal, 3) + OuterSum(b, piece, AntiDiagonal, 3)
  }

  lemma {:induction false} InnerSumBounds(b: Cells, piece: int, d: Direction, o: int, n: nat)
    requires 0 <= o < Outer(d) && n <= Inner(d)
    ensures -4 * n <= InnerSum(b, piece, d, o, n) <= 100 * n
  {
    if n > 0 {
      InnerSumBounds(b, piece, d, o, n - 1);
    }
  }

  /** The number of windows in m outer iterations. */
  function WindowCount(d: Direction, m: nat): nat {
    if d == Vertical then 3 * m else 4 * m
  }

  lemma {:induction false} OuterSumBounds(b: Cells, piece: int, d: Direction, m: nat)
    requires m <= Outer(d)
    ensures -4 * WindowCount(d, m) <= OuterSum(b, piece, d, m) <= 100 * WindowCount(d, m)
  {
    if m > 0 {
      OuterSumBounds(b, piece, d, m - 1);
      InnerSumBounds(b, piece, d, m - 1, Inner(d));
    }
  }

  /** There are 69 windows, each worth between -4 and 100, and at most six
      centre pieces worth 3 each. */
  lemma PositionScoreBounds(b: Cells, piece: int)
    ensures -276 <= PositionScore(b, piece) <= 6918
  {
    OuterSumBounds(b, piece, Horizontal, 6);
    OuterSumBounds(b, piece, Vertical, 7);
    OuterSumBounds(b, piece, Diagonal, 3);
    OuterSumBounds(b, piece, AntiDiagonal, 3);
  }

  /** `row_array[c:c + 4]` of row r is the horizontal window at (r, c). */
  lemma RowWindow(b: Cells, r: int, c: int)
    requires 0 <= r < 6 && 0 <= c < 4
    ensures b[7 * r .. 7 * r + 7][c .. c + 4] == Window(b, Horizontal, r, c)
  {
    var w := b[7 * r .. 7 * r + 7][c .. c + 4];
    assert w[0] == At(b, r, c) && w[1] == At(b, r, c + 1);
    assert w[2] == At(b, r, c + 2) && w[3] == At(b, r, c + 3);
  }

  /** `col_array[r:r + 4]` of column c is the vertical window at (r, c). */
  lemma ColumnWindow(b: Cells, c: int, r: int)
    requires 0 <= c < 7 && 0 <= r < 3
    ensures Column(b, c)[r .. r + 4] == Window(b, Vertical, c, r)
  {
    var w := Column(b, c)[r .. r + 4];
    assert w[0] == At(b, r, c) && w[1] == At(b, r + 1, c);
    assert w[2] == At(b, r + 2, c) && w[3] == At(b, r + 3, c);
  }

  /** `score_position(piece)`: the centre count, then the four double loops
      over the windows, each cut from the board as the source does. */
  method ScorePosition(b: Cells, piece: int) returns (score: int)
    ensures score == PositionScore(b, piece)
  {
    var centerArray := Column(b, COLS / 2);
    score := Count(centerArray, piece) * 3;
    var horizontal := HorizontalScore(b, piece);
    var vertical := VerticalScore(b, piece);
    var diagonal := DiagonalScore(b, piece);
    var antiDiagonal := AntiDiagonalScore(b, piece);
    score := score + horizontal + vertical + diagonal + antiDiagonal;
  }

  /** The horizontal loop: `row_array[c:c + 4]` of every row. */
  method HorizontalScore(b: Cells, piece: int) returns (score: int)
    ensures score == OuterSum(b, piece, Horizontal, 6)
  {
    score := 0;
    for r := 0 to 6
      invariant score == OuterSum(b, piece, Horizontal, r)
    {
      var rowArray := b[7 * r .. 7 * r + 7];
      for c := 0 to 4
        invariant score == OuterSum(b, piece, Horizontal, r) + InnerSum(b, piece, Horizontal, r, c)
      {
        var window := rowArray[c .. c + 4];
        RowWindow(b, r, c);
        score := score + EvaluateWindow(window, piece);
      }
    }
  }

  /** The vertical loop: `col_array[r:r + 4]` of every column. */
  method VerticalScore(b: Cells, piece: int) returns (score: int)
    ensures score == OuterSum(b, piece, Vertical, 7)
  {
    score := 0;
    for c := 0 to 7
      invariant score == OuterSum(b, piece, Vertical, c)
    {
      var colArray := Column(b, c);
      for r := 0 to 3
        invariant score == OuterSum(b, piece, Vertical, c) + InnerSum(b, piece, Vertical, c, r)
      {
        var window := colArray[r .. r + 4];
        ColumnWindow(b, c, r);
        score := score + EvaluateWindow(window, piece);
      }
    }
  }

  /** The rising diagonals, from their lower-left cell. */
  method DiagonalScore(b: Cells, piece: int) returns (score: int)
    ensures score == OuterSum(b, piece, Diagonal, 3)
  {
    score := 0;
    for r := 0 to 3
      invariant score == OuterSum(b, piece, Diagonal, r)
    {
      for c := 0 to 4
        invariant score == OuterSum(b, piece, Diagonal, r) + InnerSum(b, piece, Diagonal, r, c)
      {
        var window := [At(b, r, c), At(b, r + 1, c + 1), At(b, r + 2, c + 2), At(b, r + 3, c + 3)];
        assert Start(Diagonal, r, c) == (r, c);
        score := score + EvaluateWindow(window, piece);
      }
    }
  }

  /** The falling diagonals, from their upper-left cell. */
  method AntiDiagonalScore(b: Cells, piece: int) returns (score: int)
    ensures score == OuterSum(b, piece, AntiDiagonal, 3)
  {
    score := 0;
    for r := 0 to 3
      invariant score == OuterSum(b, piece, AntiDiagonal, r)
    {
      for c := 0 to 4
        invariant score == OuterSum(b, piece, AntiDiagonal, r) + InnerSum(b, piece, AntiDiagonal, r, c)
      {
        var window := [At(b, r + 3, c), At(b, r + 2, c + 1), At(b, r + 1, c + 2), At(b, r, c + 3)];
        assert Start(AntiDiagonal, r, c) == (r + 3, c);
        score := score + EvaluateWindow(window, piece);
      }
    }
  }
}
