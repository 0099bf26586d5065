/** alphaconnect4/interfaces/connect4/connect4_board.py: the newer Connect-Four
    board object. Moves are (row, column) actions, the turn flips as `1 - turn`
    and the queries are whole-array numpy expressions, here functions of the
    cells. `winning_move` convolves the mask `board == piece` with the four
    line kernels and looks for a sum of 4; a sum of 4 over a 0/1 mask means all
    four cells of that line hold the piece, which is `Grid.HasFour`. */
module Connect4Board {
  import opened Common
  import opened Grid

  /** `get_valid_actions` of a board: (next open row, column) for every
      column whose top cell is empty, in ascending column order. */
  function ValidActions(b: Cells): (actions: seq<(int, int)>)
    ensures |actions| == |ValidColumns(b)|
    ensures forall i :: 0 <= i < |actions| ==> actions[i].1 == ValidColumns(b)[i]
                                                && OpenRow(b, actions[i].1) == Some(actions[i].0)
  {
    var cols := ValidColumns(b);
    seq(|cols|, i requires 0 <= i < |cols| => (OpenRow(b, cols[i]).value, cols[i]))
  }

  class Connect4Board {
    var cells: array<int>
    var turn: int
    var lastMove: Option<int>
    /** The action set of every turn: one index per column. */
    const actionIndices: seq<int>

    ghost predicate Valid()
      reads this
    {
      cells.Length == SIZE
    }

    function Value(): Cells
      reads this, cells
      requires Valid()
    {
      cells[..]
    }

    /** `Connect4Board(board, turn)`: the given array is kept, not copied;
        without one the board starts as 6 x 7 zeros. */
    constructor (board: Option<array<int>>, turn: int)
      requires board.Some? ==> board.value.Length == SIZE
      ensures Valid() && this.turn == turn && lastMove == None
      ensures actionIndices == [0, 1, 2, 3, 4, 5, 6]
      ensures board.Some? ==> cells == board.value
      ensures board.None? ==> fresh(cells) && Value() == EmptyBoard()
    {
      if board.Some? {
        cells := board.value;
      } else {
        cells := new int[42](_ => EMPTY);
      }
      this.turn := turn;
      lastMove := None;
      actionIndices := seq(COLS, i => i);
    }

    method UpdateTurn()
      modifies this`turn
      ensures turn == 1 - old(turn)
    {
      turn := 1 - turn;
    }

    /** `drop_piece((row, col))`: writes `turn + 1` at (row, col), records the
        column as last move and flips the turn; no other cell changes. */
    method DropPiece(action: (int, int))
      requires Valid() && InBounds(action.0, action.1)
      modifies this`turn, this`lastMove, cells
      ensures Valid() && cells == old(cells)
      ensures Value() == Drop(old(Value()), action.0, action.1, old(turn) + 1)
      ensures lastMove == Some(action.1) && turn == 1 - old(turn)
    {
      var (row, col) := action;
      cells[7 * row + col] := turn + 1;
      lastMove := Some(col);
      UpdateTurn();
    }

    function IsValidAction(action: (int, int)): (valid: bool)
      reads this, cells
      requires Valid() && InBounds(action.0, action.1)
      ensures valid <==> cells[7 * action.0 + action.1] == EMPTY
    {
      At(Value(), action.0, action.1) == EMPTY
    }

    /** `get_next_open_row(col)`: the least row with an empty cell in the column. */
    function GetNextOpenRow(col: int): (row: Option<nat>)
      reads this, cells
      requires Valid() && 0 <= col < COLS
      ensures row.Some? ==> row.value < ROWS && cells[7 * row.value + col] == EMPTY
                            && forall k :: 0 <= k < row.value ==> cells[7 * k + col] != EMPTY
      ensures row.None? ==> forall k :: 0 <= k < ROWS ==> cells[7 * k + col] != EMPTY
    {
      OpenRow(Value(), col)
    }

    /** `winning_move()`: only the piece of the player who has just moved,
        `1 + (1 - turn)`, is looked for. */
    function WinningMove(): (won: bool)
      reads this, cells
      requires Valid()
      ensures turn == 0 ==> (won <==> HasFour(Value(), AI_PIECE))
      ensures turn == 1 ==> (won <==> HasFour(Value(), PLAYER_PIECE))
    {
      HasFour(Value(), 1 + (1 - turn))
    }

    /** `tie()`: no cell is 0. */
    function Tie(): (tie: bool)
      reads this, cells
      requires Valid()
      ensures tie <==> forall i :: 0 <= i < cells.Length ==> cells[i] != EMPTY
    {
      Full(Value())
    }

    function GetValidActions(): (actions: seq<(int, int)>)
      reads this, cells
      requires Valid()
      ensures forall a :: a in actions <==> 0 <= a.1 < COLS && ValidColumn(Value(), a.1)
                                            && OpenRow(Value(), a.1) == Some(a.0)
      ensures forall i, j :: 0 <= i < j < |actions| ==> actions[i].1 < actions[j].1
    {
      ValidActions(Value())
    }
  }
}
