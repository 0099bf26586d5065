/** gameplay/board.py: the Connect-Four board object. Its cells, its turn and
    its last move are updated in place; its queries scan the cells with loops. */
module GameplayBoard {
  import opened Common
  import opened Grid

  /** `update_turn`: `0 if turn else 1`. */
  function Toggle(turn: int): (t: int)
    ensures t == 0 || t == 1
    ensures turn == 0 || turn == 1 ==> t == 1 - turn
  {
    if turn != 0 then 0 else 1
  }

  /** The first and last-plus-one start rows, and the last-plus-one start
      column, that the loops of `winning_move` scan in direction d. */
  function RowFrom(d: Direction): int {
    if d == AntiDiagonal then 3 else 0
  }

  function RowTo(d: Direction): int {
    if d == Horizontal || d == AntiDiagonal then 6 else 3
  }

  function ColTo(d: Direction): int {
    if d == Vertical then 7 else 4
  }

  class Board {
    var cells: array<int>
    var turn: int
    var lastMove: Option<int>

    ghost predicate Valid()
      reads this
    {
      cells.Length == SIZE
    }

    /** The board contents. */
    function Value(): Cells
      reads this, cells
      requires Valid()
    {
      cells[..]
    }

    /** `Board(board, turn)`: the given array is kept, not copied; without one
        the board starts empty. */
    constructor (board: Option<array<int>>, turn: int)
      requires board.Some? ==> board.value.Length == SIZE
      ensures Valid() && this.turn == turn && lastMove == None
      ensures board.Some? ==> cells == board.value
      ensures board.None? ==> fresh(cells) && Value() == EmptyBoard()
    {
      if board.Some? {
        cells := board.value;
      } else {
        cells := new int[42](_ => EMPTY);
      }
      this.turn := turn;
      lastMove := None;
    }

    method UpdateTurn()
      modifies this`turn
      ensures turn == Toggle(old(turn))
    {
      turn := if turn != 0 then 0 else 1;
    }

    /** `drop_piece(row, col)`: the mover's piece `turn + 1` goes to (row, col),
        nothing else on the board changes, and the turn passes. */
    method DropPiece(row: int, col: int)
      requires Valid() && InBounds(row, col)
      modifies this`turn, this`lastMove, cells
      ensures Valid() && cells == old(cells)
      ensures Value() == Drop(old(Value()), row, col, old(turn) + 1)
      ensures lastMove == Some(col) && turn == Toggle(old(turn))
    {
      cells[7 * row + col] := turn + 1;
      lastMove := Some(col);
      UpdateTurn();
    }

    function IsValidLocation(col: int): (valid: bool)
      reads this, cells
      requires Valid() && 0 <= col < COLS
      ensures valid <==> ValidColumn(Value(), col)
    {
      cells[7 * (ROWS - 1) + col] == EMPTY
    }

    method GetNextOpenRow(col: int) returns (row: Option<nat>)
      requires Valid() && 0 <= col < COLS
      ensures row == OpenRow(Value(), col)
    {
      var r := 0;
      while r < ROWS
        invariant 0 <= r <= ROWS
        invariant OpenRowFrom(Value(), col, r) == OpenRow(Value(), col)
      {
        if cells[7 * r + col] == EMPTY {
          return Some(r);
        }
        r := r + 1;
      }
      return None;
    }

    /** One of the four double loops of `winning_move`: does some line of four
        in direction d hold only `piece`? */
    method ScanDirection(piece: int, d: Direction) returns (found: bool)
      requires Valid()
      ensures found <==> exists r, c :: FourAt(Value(), piece, d, r, c)
    {
      ghost var b := Value();
      var dr, dc := RowStep(d), ColStep(d);
      var c := 0;
      while c < ColTo(d)
        invariant 0 <= c <= ColTo(d)
        invariant forall r', c' :: 0 <= c' < c ==> !FourAt(b, piece, d, r', c')
      {
        var r := RowFrom(d);
        while r < RowTo(d)
          invariant RowFrom(d) <= r <= RowTo(d)
          invariant forall r', c' :: 0 <= c' < c ==> !FourAt(b, piece, d, r', c')
          invariant forall r' :: r' < r ==> !FourAt(b, piece, d, r', c)
        {
          if cells[7 * r + c] == piece && cells[7 * (r + dr) + (c + dc)] == piece
             && cells[7 * (r + 2 * dr) + (c + 2 * dc)] == piece
             && cells[7 * (r + 3 * dr) + (c + 3 * dc)] == piece
          {
            assert FourAt(b, piece, d, r, c);
            return true;
          }
          r := r + 1;
        }
        c := c + 1;
      }
      return false;
    }

    /** `winning_move(piece)`: horizontal lines first, then vertical, then the
        two diagonals, stopping at the first line of four. */
    method WinningMove(piece: int) returns (won: bool)
      requires Valid()
      ensures won <==> HasFour(Value(), piece)
    {
      var directions := [Horizontal, Vertical, Diagonal, AntiDiagonal];
      var i := 0;
      while i < 4
        invariant 0 <= i <= 4
        invariant forall j, r, c :: 0 <= j < i ==> !FourAt(Value(), piece, directions[j], r, c)
      {
        won := ScanDirection(piece, directions[i]);
        if won {
          return;
        }
        i := i + 1;
      }
      assert forall r, c ::
               !FourAt(Value(), piece, Horizontal, r, c) && !FourAt(Value(), piece, Vertical, r, c) &&
               !FourAt(Value(), piece, Diagonal, r, c) && !FourAt(Value(), piece, AntiDiagonal, r, c) by {
        assert directions[0] == Horizontal && directions[1] == Vertical;
        assert directions[2] == Diagonal && directions[3] == AntiDiagonal;
      }
      return false;
    }

    method GetValidLocations() returns (locations: seq<int>)
      requires Valid()
      ensures locations == ValidColumns(Value())
    {
      locations := [];
      var col := 0;
      while col < COLS
        invariant 0 <= col <= COLS
        invariant locations == ValidColumnsBelow(Value(), col)
      {
        if IsValidLocation(col) {
          locations := locations + [col];
        }
        col := col + 1;
      }
    }
  }
}
