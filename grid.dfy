/** The Connect-Four board as a value: the 6 x 7 grid of cells that every
    board class, search engine and parser of the system works on.
    A board is kept as its row-major buffer of 42 cells (the order of numpy's
    `tobytes`), so cell (r, c) sits at offset 7r + c. Row 0 is the bottom row:
    pieces fall to the lowest empty row of a column. A cell holds 0 when
    empty, 1 for the player's piece and 2 for the AI's piece. */
module Grid {
  import opened Common

  const ROWS := 6          // ROW_COUNT
  const COLS := 7          // COLUMN_COUNT
  const SIZE := 42
  const EMPTY := 0
  const PLAYER_PIECE := 1
  const AI_PIECE := 2

  type Cells = s: seq<int> | |s| == 42 witness EmptyBoard()

  /** `np.zeros((6, 7))` */
  function EmptyBoard(): (b: seq<int>)
    ensures |b| == 42 && forall i :: 0 <= i < 42 ==> b[i] == EMPTY
  {
    seq(42, _ => EMPTY)
  }

  predicate InBounds(r: int, c: int) {
    0 <= r < ROWS && 0 <= c < COLS
  }

  /** `board[r][c]` */
  function At(b: Cells, r: int, c: int): int
    requires InBounds(r, c)
  {
    b[7 * r + c]
  }

  /** The board after `board[r][c] = v`: exactly that one cell changes. */
  function Drop(b: Cells, r: int, c: int, v: int): (b': Cells)
    requires InBounds(r, c)
    ensures At(b', r, c) == v
    ensures forall r', c' :: InBounds(r', c') && (r' != r || c' != c) ==> At(b', r', c') == At(b, r', c')
  {
    b[7 * r + c := v]
  }

  /** The lowest empty row of column c at or above row `from`. */
  function OpenRowFrom(b: Cells, c: int, from: nat): (r: Option<nat>)
    requires 0 <= c < COLS && from <= ROWS
    ensures r.Some? ==> from <= r.value < ROWS && At(b, r.value, c) == EMPTY
                        && forall k :: from <= k < r.value ==> At(b, k, c) != EMPTY
    ensures r.None? ==> forall k :: from <= k < ROWS ==> At(b, k, c) != EMPTY
    decreases ROWS - from
  {
    if from == ROWS then None
    else if At(b, from, c) == EMPTY then Some(from)
    else OpenRowFrom(b, c, from + 1)
  }

  /** `get_next_open_row(col)`: the least row whose cell in column c is empty, or None. */
  function OpenRow(b: Cells, c: int): Option<nat>
    requires 0 <= c < COLS
  {
    OpenRowFrom(b, c, 0)
  }

  /** `is_valid_location(col)`: the cell in the top row of column c is empty. */
  predicate ValidColumn(b: Cells, c: int)
    requires 0 <= c < COLS
  {
    At(b, ROWS - 1, c) == EMPTY
  }

  /** The valid columns among 0 .. n-1, ascending: what `get_valid_locations`
      has collected after n iterations. */
  function ValidColumnsBelow(b: Cells, n: nat): (cols: seq<int>)
    requires n <= COLS
    ensures forall i :: 0 <= i < |cols| ==> 0 <= cols[i] < n && ValidColumn(b, cols[i])
    ensures forall i, j :: 0 <= i < j < |cols| ==> cols[i] < cols[j]
    ensures forall c :: 0 <= c < n && ValidColumn(b, c) ==> c in cols
  {
    if n == 0 then []
    else ValidColumnsBelow(b, n - 1) + (if ValidColumn(b, n - 1) then [n - 1] else [])
  }

  /** `get_valid_locations()` */
  function ValidColumns(b: Cells): seq<int> {
    ValidColumnsBelow(b, COLS)
  }

  /** The four scanning directions of `winning_move`. */
  datatype Direction = Horizontal | Vertical | Diagonal | AntiDiagonal

  /** A line of four cells starting at (r, c) in direction d lies on the board;
      these are exactly the start cells the loops of `winning_move` visit. */
  predicate Fits(d: Direction, r: int, c: int) {
    match d
    case Horizontal => 0 <= r < 6 && 0 <= c < 4
    case Vertical => 0 <= r < 3 && 0 <= c < 7
    case Diagonal => 0 <= r < 3 && 0 <= c < 4
    case AntiDiagonal => 3 <= r < 6 && 0 <= c < 4
  }

  function RowStep(d: Direction): int {
    match d
    case Horizontal => 0
    case Vertical => 1
    case Diagonal => 1
    case AntiDiagonal => -1
  }

  function ColStep(d: Direction): int {
    match d
    case Horizontal => 1
    case Vertical => 0
    case Diagonal => 1
    case AntiDiagonal => 1
  }

  /** The four cells of the line starting at (r, c) in direction d, in order. */
  function Line(b: Cells, d: Direction, r: int, c: int): (w: seq<int>)
    requires Fits(d, r, c)
    ensures |w| == 4
  {
    var dr, dc := RowStep(d), ColStep(d);
    [At(b, r, c), At(b, r + dr, c + dc), At(b, r + 2 * dr, c + 2 * dc), At(b, r + 3 * dr, c + 3 * dc)]
  }

  predicate FourAt(b: Cells, piece: int, d: Direction, r: int, c: int) {
    Fits(d, r, c) && Line(b, d, r, c) == [piece, piece, piece, piece]
  }

  /** Some horizontal, vertical or diagonal line of four cells all hold `piece`. */
  predicate HasFour(b: Cells, piece: int) {
    exists r, c | 0 <= r < ROWS && 0 <= c < COLS ::
      FourAt(b, piece, Horizontal, r, c) || FourAt(b, piece, Vertical, r, c) ||
      FourAt(b, piece, Diagonal, r, c) || FourAt(b, piece, AntiDiagonal, r, c)
  }

  /** No cell is empty. */
  predicate Full(b: Cells) {
    forall i :: 0 <= i < SIZE ==> b[i] != EMPTY
  }

  /** Gravity: every piece above the bottom row rests on another piece. */
  predicate Settled(b: Cells) {
    forall r, c | 1 <= r < ROWS && 0 <= c < COLS :: At(b, r, c) != EMPTY ==> At(b, r - 1, c) != EMPTY
  }

  /** The number of empty cells: a bound on the plies left in the game. */
  function EmptyCount(b: Cells): nat {
    Count(b, EMPTY)
  }

  /** No column is playable exactly when the list of valid columns is empty. */
  lemma NoValidColumns(b: Cells)
    ensures ValidColumns(b) == [] <==> forall c | 0 <= c < COLS :: !ValidColumn(b, c)
  {
    if ValidColumns(b) != [] {
      assert ValidColumn(b, ValidColumns(b)[0]);
    }
  }

  /** Dropping a piece at the open row of a valid column keeps the board settled. */
  lemma DropKeepsSettled(b: Cells, c: int, v: int)
    requires Settled(b) && 0 <= c < COLS && ValidColumn(b, c) && v != EMPTY
    ensures Settled(Drop(b, OpenRow(b, c).value, c, v))
  {
    var r := OpenRow(b, c).value;
    var b' := Drop(b, r, c, v);
    forall r', c' | InBounds(r', c') && 1 <= r' && At(b', r', c') != EMPTY
      ensures At(b', r' - 1, c') != EMPTY
    {
      if r' == r && c' == c {
        assert At(b, r' - 1, c') != EMPTY;
      } else {
        assert At(b, r', c') != EMPTY;
      }
    }
  }

  /** Filling an empty cell with a piece removes one empty cell. */
  lemma DropFillsOneCell(b: Cells, r: int, c: int, v: int)
    requires InBounds(r, c) && At(b, r, c) == EMPTY && v != EMPTY
    ensures EmptyCount(Drop(b, r, c, v)) == EmptyCount(b) - 1
  {
    CountUpdate(b, 7 * r + c, v, EMPTY);
  }

  lemma {:induction false} CountUpdate(s: seq<int>, i: int, v: int, x: int)
    requires 0 <= i < |s|
    ensures Count(s[i := v], x) == Count(s, x) - (if s[i] == x then 1 else 0) + (if v == x then 1 else 0)
  {
    var t := s[i := v];
    if i == |s| - 1 {
      assert t[..|t| - 1] == s[..|s| - 1];
    } else {
      assert t[..|t| - 1] == s[..|s| - 1][i := v];
      CountUpdate(s[..|s| - 1], i, v, x);
    }
  }

  /** In a settled board the cells above an empty cell are empty. */
  lemma {:induction false} EmptyUpward(b: Cells, r: int, c: int)
    requires Settled(b) && InBounds(r, c) && At(b, r, c) == EMPTY
    ensures At(b, ROWS - 1, c) == EMPTY
    decreases ROWS - r
  {
    if r < ROWS - 1 {
      assert At(b, r + 1, c) == EMPTY;
      EmptyUpward(b, r + 1, c);
    }
  }

  /** A settled board that is not full has a valid column. */
  lemma SettledHasMove(b: Cells)
    requires Settled(b) && !Full(b)
    ensures ValidColumns(b) != []
  {
    var i :| 0 <= i < SIZE && b[i] == EMPTY;
    var r, c := i / 7, i % 7;
    assert At(b, r, c) == EMPTY;
    EmptyUpward(b, r, c);
    assert c in ValidColumns(b);
  }

  /** A line of four of w survives on a board that keeps every w of b'. */
  lemma FourSurvives(b: Cells, b': Cells, w: int, d: Direction, r: int, c: int)
    requires FourAt(b', w, d, r, c)
    requires forall r0, c0 | InBounds(r0, c0) && At(b', r0, c0) == w :: At(b, r0, c0) == w
    ensures FourAt(b, w, d, r, c)
  {
    var dr, dc := RowStep(d), ColStep(d);
    var l' := Line(b', d, r, c);
    assert l'[0] == w && l'[1] == w && l'[2] == w && l'[3] == w;
    assert At(b, r, c) == w && At(b, r + dr, c + dc) == w;
    assert At(b, r + 2 * dr, c + 2 * dc) == w && At(b, r + 3 * dr, c + 3 * dc) == w;
  }

  /** Dropping a piece v never gives another piece w a line of four. */
  lemma DropKeepsOtherFours(b: Cells, r: int, c: int, v: int, w: int)
    requires InBounds(r, c) && v != w && !HasFour(b, w)
    ensures !HasFour(Drop(b, r, c, v), w)
  {
    var b' := Drop(b, r, c, v);
    if HasFour(b', w) {
      var r', c' :| 0 <= r' < ROWS && 0 <= c' < COLS &&
        (FourAt(b', w, Horizontal, r', c') || FourAt(b', w, Vertical, r', c') ||
         FourAt(b', w, Diagonal, r', c') || FourAt(b', w, AntiDiagonal, r', c'));
      var d :| d in {Horizontal, Vertical, Diagonal, AntiDiagonal} && FourAt(b', w, d, r', c');
      FourSurvives(b, b', w, d, r', c');
      assert false;
    }
  }

  /** The empty board has no line of four of a piece. */
  lemma EmptyHasNoFour(w: int)
    requires w != EMPTY
    ensures !HasFour(EmptyBoard(), w)
  {
    forall r, c, d: Direction | Fits(d, r, c) ensures !FourAt(EmptyBoard(), w, d, r, c) {
      assert Line(EmptyBoard(), d, r, c)[0] == EMPTY;
    }
  }
}
