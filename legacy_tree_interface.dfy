/** engines/mcts_interface.py: the older `Connect4Tree`, the search node over
    the board of gameplay/board.py. It differs from the newer one in its end
    test (no playable column rather than a full board), in a checked reward
    that raises on the boards it does not expect, and in a heuristic child
    chosen by the minimax window score.

    Nodes are the newer adapter's `Tree` values, whose identity is the board
    alone, over boards whose pieces rest on one another. */
module LegacyTreeInterface {
  import opened Common
  import opened Grid
  import opened GameNode
  import opened Heuristic
  import T = TreeInterface

  type Position = T.Position


  /** `is_terminal()`: a four for either side, or no playable column. */
  predicate IsTerminal(t: T.Tree) {
    HasFour(t.cells, PLAYER_PIECE) || HasFour(t.cells, AI_PIECE) || |ValidColumns(t.cells)| == 0
  }

  /** On boards whose pieces rest on one another this end test and the
      newer adapter's (a full board instead of no playable column) agree. */
  lemma TerminalAgrees(p: Position)
    ensures IsTerminal(p) <==> T.IsTerminal(p)
  {
    T.RewardIsTie(p);
  }

  /** What `find_children()` returns: the copy of the board with the mover's
      piece dropped in each valid column, the column recorded and the turn
      passed, for an unfinished game; nothing for a finished one. */
  function Children(p: Position): set<Position> {
    T.ChildrenUnless(IsTerminal(p), p)
  }

  /** `find_children()`: nothing for a finished game, otherwise the loop
      over the valid columns, which is the newer adapter's. */
  method FindChildren(p: Position) returns (childs: set<Position>)
    ensures childs == Children(p)
  {
    if IsTerminal(p) {
      return {};
    }
    childs := T.CollectChildren(p);
  }

  /** `find_random_child()`: None on a finished game, otherwise the child of a
      column drawn at random among the valid ones. */
  method FindRandomChild(p: Position) returns (child: Option<Position>)
    ensures child.None? <==> IsTerminal(p)
    ensures child.Some? ==> child.value in Children(p)
  {
    if IsTerminal(p) {
      return None;
    }
    var cols := ValidColumns(p.cells);
    assert cols[0] in cols;
    var col :| col in cols;
    child := Some(T.Child(p, col));
  }

  /** The heuristic worth of a child to the side that moves next from it. */
  function ChildScore(c: Position): real {
    PositionScore(c.cells, c.turn + 1) as real
  }

  /** `find_heuristic_child()`: None on a finished game, otherwise a fresh
      node over a copy of the board and the turn of a child that no other
      child beats on `score_position(child.turn + 1)`. The fresh node is built
      by the board constructor, so its last move is None. */
  method FindHeuristicChild(p: Position) returns (child: Option<Position>)
    ensures child.None? <==> IsTerminal(p)
    ensures child.Some? ==> child.value.lastMove == None
    ensures child.Some? ==>
              exists c | c in Children(p) :: c.cells == child.value.cells && c.turn == child.value.turn
                                             && forall d | d in Children(p) :: ChildScore(d) <= ChildScore(c)
    ensures child.Some? ==> forall d | d in Children(p) :: ChildScore(d) <= ChildScore(child.value)
  {
    if IsTerminal(p) {
      return None;
    }
    var childs := FindChildren(p);
    assert T.ChildList(p)[0] in childs;
    var best := ArgMax(childs, c => ChildScore(c));
    child := Some(T.Tree(best.cells, best.turn, None));
  }

  /** `reward()`, checked: an unfinished game, or one whose player to move
      already has a four, raises; a four of the player who has just moved is
      a loss (0) to the player to move; a board with no playable column is a
      tie (0.5); anything else raises. */
  function Reward(t: T.Tree): (r: Result<real>)
    ensures !IsTerminal(t) ==> r == Err(RuntimeError)
    ensures (t.turn == 0 || t.turn == 1) && HasFour(t.cells, t.turn + 1) ==> r == Err(RuntimeError)
  {
    if !IsTerminal(t) then Err(RuntimeError)
    else if (HasFour(t.cells, AI_PIECE) && t.turn == 1) || (HasFour(t.cells, PLAYER_PIECE) && t.turn == 0) then
      Err(RuntimeError)
    else if (HasFour(t.cells, PLAYER_PIECE) && t.turn == 1) || (HasFour(t.cells, AI_PIECE) && t.turn == 0) then
      Ok(0.0)
    else if |ValidColumns(t.cells)| == 0 then Ok(0.5)
    else Err(RuntimeError)
  }

  /** The positions play reaches: the player to move owns no four, since a
      game stops as soon as a four is made. */
  predicate Reachable(p: Position) {
    !HasFour(p.cells, p.turn + 1)
  }

  /** The opening position is reachable, and so is every child of a
      reachable one: the new mover's pieces are those of an unfinished game. */
  lemma RootReachable()
    ensures Reachable(T.Tree(EmptyBoard(), 0, None))
  {
    EmptyHasNoFour(PLAYER_PIECE);
  }

  lemma ChildReachable(p: Position, c: Position)
    requires c in Children(p)
    ensures Reachable(c)
  {
    var i := T.ChildIndex(IsTerminal(p), p, c);
    var col := ValidColumns(p.cells)[i];
    var row := OpenRow(p.cells, col).value;
    assert c.cells == Drop(p.cells, row, col, p.turn + 1) && c.turn + 1 != p.turn + 1;
    assert !HasFour(p.cells, c.turn + 1);
    DropKeepsOtherFours(p.cells, row, col, p.turn + 1, c.turn + 1);
  }

  /** On a finished reachable position the reward never raises: it is 0
      exactly when the player who has just moved has a four, and 0.5 exactly
      when the board is full with no four. */
  lemma RewardOnTerminal(p: Position)
    requires IsTerminal(p) && Reachable(p)
    ensures Reward(p).Ok?
    ensures Reward(p).value == 0.0 <==> HasFour(p.cells, 2 - p.turn)
    ensures Reward(p).value == 0.5 <==> Full(p.cells) && !HasFour(p.cells, PLAYER_PIECE) && !HasFour(p.cells, AI_PIECE)
  {
    TerminalAgrees(p);
  }

  /** The reward the engine reads; on the finished reachable positions it
      reads it on, this is never the error case. */
  function GameReward(p: Position): real {
    match Reward(p)
    case Ok(r) => r
    case Err(_) => 0.0
  }

  /** A node and its children, as the engine sees them. */
  function TheGame(): Game<Position, Cells> {
    T.GameOf((p: Position) => IsTerminal(p), (p: Position) => GameReward(p))
  }

  /** The adapter keeps the promise of the engine's node interface: a full
      board has no playable column, so it ends the game. */
  lemma GameContract()
    ensures Contract(TheGame())
  {
    forall p: Position | Full(p.cells) ensures IsTerminal(p) {
      TerminalAgrees(p);
    }
    T.AdapterContract((p: Position) => IsTerminal(p), (p: Position) => GameReward(p));
  }
}
