/** alphaconnect4/interfaces/mcts_interface.py: `Connect4Tree`, the search node
    over the Connect-Four board. A node is its board, the player to move and
    the column last played; its identity (`id_`, the hash of the board bytes)
    is the board alone, so two nodes that differ only in whose turn it is are
    one node to the engine.

    The board methods the class inherits are those of the `Board` of
    gameplay/board.py (the abstract alphaconnect4/interfaces/board.py does not
    define them): the mover's piece is `turn + 1` and the turn toggles between
    0 and 1. Positions are boards whose pieces rest on one another, with the
    turn 0 or 1.

    The three adapters differ only in their end test and reward; the
    children under an end test, the engine's view of an adapter and the
    proof that it keeps the engine's node contract are written once here,
    for any end test that holds on every full board. */
module TreeInterface {
  import opened Common
  import opened Grid
  import opened GameNode
  import GameplayBoard

  datatype Tree = Tree(cells: Cells, turn: int, lastMove: Option<int>)

  type Position = t: Tree | Settled(t.cells) && (t.turn == 0 || t.turn == 1)
    witness Tree(EmptyBoard(), 0, None)

  /** `Connect4Tree(board, turn)`: a fresh node has no last move. */
  function Root(cells: Cells, turn: int): (t: Tree)
    ensures t.cells == cells && t.turn == turn && t.lastMove == None
  {
    Tree(cells, turn, None)
  }

  /** `__hash__`: the board bytes. */
  function Id(t: Tree): Cells {
    t.cells
  }

  /** `__eq__`: equal hashes. */
  predicate Equal(a: Tree, b: Tree) {
    Id(a) == Id(b)
  }

  /** The action a node records, -1 for a fresh node. */
  function LastMove(t: Tree): int {
    match t.lastMove
    case Some(col) => col
    case None => -1
  }

  /** `create_child(row, col)`: the copy of the board gets the mover's piece
      at (row, col), records the column and passes the turn; the parent, a
      value, is untouched. */
  function CreateChild(t: Tree, row: int, col: int): (child: Tree)
    requires InBounds(row, col)
    ensures At(child.cells, row, col) == t.turn + 1
    ensures forall r, c | InBounds(r, c) && (r, c) != (row, col) :: At(child.cells, r, c) == At(t.cells, r, c)
    ensures child.turn == GameplayBoard.Toggle(t.turn) && child.lastMove == Some(col)
  {
    Tree(Drop(t.cells, row, col, t.turn + 1), GameplayBoard.Toggle(t.turn), Some(col))
  }

  /** The child for a valid column, dropped at its next open row. */
  function Child(p: Position, col: int): (child: Position)
    requires 0 <= col < COLS && ValidColumn(p.cells, col)
    ensures EmptyCount(child.cells) == EmptyCount(p.cells) - 1
    ensures LastMove(child) == col
  {
    var row := OpenRow(p.cells, col).value;
    DropKeepsSettled(p.cells, col, p.turn + 1);
    DropFillsOneCell(p.cells, row, col, p.turn + 1);
    CreateChild(p, row, col)
  }

  /** `is_terminal()`: either side has four in a line, or no cell is empty. */
  predicate IsTerminal(t: Tree) {
    HasFour(t.cells, PLAYER_PIECE) || HasFour(t.cells, AI_PIECE) || Full(t.cells)
  }

  /** The children of the valid columns, in ascending column order. */
  function ChildList(p: Position): (l: seq<Position>)
    ensures |l| == |ValidColumns(p.cells)|
    ensures forall j | 0 <= j < |l| :: l[j] == Child(p, ValidColumns(p.cells)[j])
  {
    var cols := ValidColumns(p.cells);
    seq(|cols|, j requires 0 <= j < |cols| => Child(p, cols[j]))
  }

  /** The children under an end test `stop`: none when it holds, otherwise
      the child of every valid column. */
  function ChildrenUnless(stop: bool, p: Position): set<Position> {
    if stop then {} else set x | x in ChildList(p)
  }

  /** What `find_children()` returns. */
  function Children(p: Position): set<Position> {
    ChildrenUnless(IsTerminal(p), p)
  }

  /** `find_children()`: nothing for a terminal node, else the loop below. */
  method FindChildren(p: Position) returns (childs: set<Position>)
    ensures childs == Children(p)
  {
    if IsTerminal(p) {
      return {};
    }
    childs := CollectChildren(p);
  }

  /** The loop of `find_children()`: the child of each valid column in turn
      (a copy of the board with the mover's piece at the column's next open
      row) joins the set. */
  method CollectChildren(p: Position) returns (childs: set<Position>)
    ensures childs == set x | x in ChildList(p)
  {
    childs := {};
    var list := ChildList(p);
    for i := 0 to |list|
      invariant childs == Elements(list, i)
    {
      childs := childs + {list[i]};
    }
    ElementsAll(list);
  }

  /** `find_random_child()`: None on a terminal node, otherwise the child of a
      column chosen at random among the valid ones. */
  method FindRandomChild(p: Position) returns (child: Option<Position>)
    ensures child.None? <==> IsTerminal(p)
    ensures child.Some? ==> child.value in Children(p)
  {
    if IsTerminal(p) {
      return None;
    }
    var cols := ValidColumns(p.cells);
    SettledHasMove(p.cells);
    assert cols[0] in cols;
    var col :| col in cols;
    return Some(Child(p, col));
  }

  /** `reward()`: 0.5 when no column is playable, 0 otherwise. */
  function Reward(t: Tree): (r: real)
    ensures r == 0.5 || r == 0.0
  {
    if |ValidColumns(t.cells)| == 0 then 0.5 else 0.0
  }

  /** On a board whose pieces rest on one another the reward is the tie
      value exactly when the board is full. */
  lemma RewardIsTie(p: Position)
    ensures Reward(p) == 0.5 <==> Full(p.cells)
  {
    NoValidColumns(p.cells);
    if Full(p.cells) {
      assert forall c | 0 <= c < COLS :: !ValidColumn(p.cells, c) by {
        forall c | 0 <= c < COLS ensures !ValidColumn(p.cells, c) {
          assert p.cells[7 * (ROWS - 1) + c] != EMPTY;
        }
      }
    } else {
      SettledHasMove(p.cells);
    }
  }

  /** The engine's view of an adapter over these nodes with end test
      `terminal` and reward `reward`. */
  function GameOf(terminal: Position -> bool, reward: Position -> real): Game<Position, Cells> {
    Game(p => Id(p), p => ChildrenUnless(terminal(p), p), terminal, reward, p => LastMove(p),
         b => EmptyCount(b), COLS)
  }

  /** A node and its children, as the engine sees them. */
  function TheGame(): Game<Position, Cells> {
    GameOf(p => IsTerminal(p), p => Reward(p))
  }

  /** Children of different columns have different boards, the cell the one
      fills being still empty in the other, and different last moves. */
  lemma ChildrenDiffer(p: Position, i: int, j: int)
    requires 0 <= i < |ChildList(p)| && 0 <= j < |ChildList(p)| && i != j
    ensures ChildList(p)[i].cells != ChildList(p)[j].cells
    ensures LastMove(ChildList(p)[i]) != LastMove(ChildList(p)[j])
  {
    var cols := ValidColumns(p.cells);
    var a, b := cols[i], cols[j];
    var ra := OpenRow(p.cells, a).value;
    assert At(Child(p, a).cells, ra, a) != EMPTY && At(Child(p, b).cells, ra, a) == EMPTY;
  }

  /** Each child is the child of some valid column. */
  lemma ChildIndex(stop: bool, p: Position, c: Position) returns (i: int)
    requires c in ChildrenUnless(stop, p)
    ensures !stop && 0 <= i < |ChildList(p)| && c == ChildList(p)[i] && c == Child(p, ValidColumns(p.cells)[i])
  {
    i :| 0 <= i < |ChildList(p)| && c == ChildList(p)[i];
  }

  /** The children differ pairwise in identity and in last move, and every
      last move is a column. */
  lemma ChildrenAreSiblings(terminal: Position -> bool, reward: Position -> real, p: Position)
    ensures Siblings(GameOf(terminal, reward), ChildrenUnless(terminal(p), p))
  {
    var g, cs := GameOf(terminal, reward), ChildrenUnless(terminal(p), p);
    forall c1: Position, c2: Position | c1 in cs && c2 in cs && c1 != c2
      ensures g.id(c1) != g.id(c2) && g.lastMove(c1) != g.lastMove(c2)
    {
      var i := ChildIndex(terminal(p), p, c1);
      var j := ChildIndex(terminal(p), p, c2);
      ChildrenDiffer(p, i, j);
    }
    forall c: Position | c in cs ensures 0 <= g.lastMove(c) < g.moves {
      var i := ChildIndex(terminal(p), p, c);
    }
  }

  /** Under an end test that holds on a full board, a node is finished
      exactly when it has no children. */
  lemma TerminalIffNoChildren(stop: bool, p: Position)
    requires Full(p.cells) ==> stop
    ensures stop <==> ChildrenUnless(stop, p) == {}
  {
    if !stop {
      SettledHasMove(p.cells);
      assert ChildList(p)[0] in ChildrenUnless(stop, p);
    }
  }

  /** Every move fills one empty cell. */
  lemma ChildrenFillACell(stop: bool, p: Position, c: Position)
    requires c in ChildrenUnless(stop, p)
    ensures EmptyCount(c.cells) < EmptyCount(p.cells)
  {
    var j := ChildIndex(stop, p, c);
  }

  /** An adapter whose end test holds on every full board keeps the promise
      of the engine's node interface: a node is terminal exactly when it has
      no children, every move fills one empty cell, and siblings are
      distinct. */
  lemma AdapterContract(terminal: Position -> bool, reward: Position -> real)
    requires forall p: Position :: Full(p.cells) ==> terminal(p)
    ensures Contract(GameOf(terminal, reward))
  {
    var g := GameOf(terminal, reward);
    forall n: Position ensures g.isTerminal(n) <==> g.findChildren(n) == {} {
      TerminalIffNoChildren(terminal(n), n);
    }
    forall n: Position, c: Position | c in g.findChildren(n) ensures g.rank(g.id(c)) < g.rank(g.id(n)) {
      ChildrenFillACell(terminal(n), n, c);
    }
    forall n: Position ensures Siblings(g, g.findChildren(n)) {
      ChildrenAreSiblings(terminal, reward, n);
    }
  }

  /** This adapter keeps the engine's node contract. */
  lemma GameContract()
    ensures Contract(TheGame())
  {
    AdapterContract(p => IsTerminal(p), p => Reward(p));
  }

  /** Identity ignores whose turn it is: the two nodes over one unfinished
      board are distinct yet share the engine's identity, so they share its
      visit, reward and children entries; and no child of one has the
      identity of a child of the other, so the children recorded under that
      identity for one node are none of the other's. */
  lemma IdentityIgnoresTurn(b: Cells)
    requires Settled(b) && !IsTerminal(Root(b, 0))
    ensures Root(b, 0) != Root(b, 1)
    ensures TheGame().id(Root(b, 0)) == TheGame().id(Root(b, 1))
    ensures forall c0, c1 | c0 in Children(Root(b, 0)) && c1 in Children(Root(b, 1)) :: Id(c0) != Id(c1)
  {
    var p0: Position, p1: Position := Root(b, 0), Root(b, 1);
    forall c0, c1 | c0 in Children(p0) && c1 in Children(p1)
      ensures Id(c0) != Id(c1)
    {
      var i0 := ChildIndex(IsTerminal(p0), p0, c0);
      var i1 := ChildIndex(IsTerminal(p1), p1, c1);
      var col0, col1 := ValidColumns(b)[i0], ValidColumns(b)[i1];
      var row0 := OpenRow(b, col0).value;
      assert At(c0.cells, row0, col0) == PLAYER_PIECE;
      if col0 == col1 {
        assert At(c1.cells, row0, col0) == AI_PIECE;
      } else {
        assert At(c1.cells, row0, col0) == At(b, row0, col0) == EMPTY;
      }
    }
  }
}
