/** alphaconnect4/interfaces/connect4/connect4_mcts_interface.py: the search
    node over the newer `Connect4Board`. Moves are (row, column) actions, the
    turn flips as `1 - turn`, a game is over when the player who has just moved
    has a four or the board is full, and the identity `id_` (refreshed by
    `update_id` after every change) is the hash of the board bytes.

    Nodes are the `Tree` values of the other adapter over boards whose pieces
    rest on one another, with the turn 0 or 1. */
module BoardTreeInterface {
  import opened Common
  import opened Grid
  import opened GameNode
  import opened Connect4Board
  import T = TreeInterface

  type Position = T.Position

  /** `Connect4Tree(board, turn)`: the constructor stores the board and turn,
      leaves no last move and sets the identity from the board. */
  function Root(cells: Cells, turn: int): (t: T.Tree)
    ensures T.Id(t) == cells && t.turn == turn && t.lastMove == None
  {
    T.Tree(cells, turn, None)
  }

  /** `create_child(action)`: a copy of the board gets the mover's piece at
      the action's cell, the column is recorded and the turn flips; the
      parent, a value, is untouched. */
  function CreateChild(t: T.Tree, action: (int, int)): (child: T.Tree)
    requires InBounds(action.0, action.1)
    ensures At(child.cells, action.0, action.1) == t.turn + 1
    ensures forall r, c | InBounds(r, c) && (r, c) != action :: At(child.cells, r, c) == At(t.cells, r, c)
    ensures child.turn == 1 - t.turn && child.lastMove == Some(action.1)
  {
    T.Tree(Drop(t.cells, action.0, action.1, t.turn + 1), 1 - t.turn, Some(action.1))
  }

  /** `is_terminal()`: `winning_move()` (a four of the player who has just
      moved, `1 + (1 - turn)`) or `tie()` (no empty cell). */
  predicate IsTerminal(t: T.Tree) {
    HasFour(t.cells, 1 + (1 - t.turn)) || Full(t.cells)
  }

  /** The children of the valid actions, in ascending column order; each is
      the other adapter's child of the same column. */
  function ChildList(p: Position): (l: seq<Position>)
    ensures |l| == |ValidActions(p.cells)| == |T.ChildList(p)|
    ensures forall j | 0 <= j < |l| :: l[j] == CreateChild(p, ValidActions(p.cells)[j]) == T.ChildList(p)[j]
  {
    var actions := ValidActions(p.cells);
    seq(|actions|, j requires 0 <= j < |actions| => T.Child(p, actions[j].1))
  }

  /** What `find_children()` returns. */
  function Children(p: Position): set<Position> {
    T.ChildrenUnless(IsTerminal(p), p)
  }

  /** `find_children()`: the child of every valid action joins the set. */
  method FindChildren(p: Position) returns (childs: set<Position>)
    ensures childs == Children(p)
  {
    if IsTerminal(p) {
      return {};
    }
    childs := {};
    var list := ChildList(p);
    for i := 0 to |list|
      invariant childs == Elements(list, i)
    {
      childs := childs + {list[i]};
    }
    ElementsAll(list);
    assert list == T.ChildList(p);
  }

  /** `find_random_child()` as written: on an unfinished game it draws an
      action (an empty list makes `random.choice` raise) and then calls
      `create_child(row, col)`, one argument more than `create_child`
      takes, which raises. */
  function FindRandomChildAsWritten(t: T.Tree): (r: Result<Option<T.Tree>>)
    ensures IsTerminal(t) <==> r == Ok(None)
  {
    if IsTerminal(t) then Ok(None)
    else if |ValidActions(t.cells)| == 0 then Err(IndexError)
    else Err(TypeError)
  }

  /** So no unfinished position ever gets a random child: the call fails on
      every one of them, the opening position included. */
  lemma FindRandomChildAlwaysFails(p: Position)
    requires !IsTerminal(p)
    ensures FindRandomChildAsWritten(p) == Err(TypeError)
  {
    SettledHasMove(p.cells);
  }

  lemma OpeningRandomChildFails()
    ensures !IsTerminal(Root(EmptyBoard(), 0))
    ensures FindRandomChildAsWritten(Root(EmptyBoard(), 0)) == Err(TypeError)
  {
    var t := Root(EmptyBoard(), 0);
    EmptyHasNoFour(AI_PIECE);
    assert t.cells[0] == EMPTY;
    assert ValidColumn(t.cells, 0);
  }

  /** `find_random_child()` as intended, passing the drawn action whole: None
      on a finished game, otherwise one of the children. */
  method FindRandomChild(p: Position) returns (child: Option<Position>)
    ensures child.None? <==> IsTerminal(p)
    ensures child.Some? ==> child.value in Children(p)
  {
    if IsTerminal(p) {
      return None;
    }
    SettledHasMove(p.cells);
    var list := ChildList(p);
    assert list[0] in list;
    var c :| c in list;
    child := Some(c);
  }

  /** `reward()`: 0.5 when no action is valid, 0 otherwise. */
  function Reward(t: T.Tree): (r: real)
    ensures r == 0.5 || r == 0.0
  {
    if |ValidActions(t.cells)| == 0 then 0.5 else 0.0
  }

  /** On a board whose pieces rest on one another the reward is the tie
      value exactly when the board is full; in particular a finished game that is not full, which is a
      game the player who has just moved has won, is worth 0 to the player to
      move. */
  lemma RewardIsTie(p: Position)
    ensures Reward(p) == 0.5 <==> Full(p.cells)
    ensures IsTerminal(p) && !Full(p.cells) ==> Reward(p) == 0.0 && HasFour(p.cells, 2 - p.turn)
  {
    T.RewardIsTie(p);
  }

  /** A node and its children, as the engine sees them; the identity is
      `id_`, the hash of the board bytes. */
  function TheGame(): Game<Position, Cells> {
    T.GameOf(p => IsTerminal(p), p => Reward(p))
  }

  /** The adapter keeps the promise of the engine's node interface: a full
      board is a tie, so it ends the game. */
  lemma GameContract()
    ensures Contract(TheGame())
  {
    T.AdapterContract(p => IsTerminal(p), p => Reward(p));
  }
}
