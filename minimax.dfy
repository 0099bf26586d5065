/** The depth-limited alpha-beta search of the two minimax engines:
    `MinimaxEngine.minimax` in alphaconnect4/engines/minimax_engine.py and its
    older copy in minimax/minimax_engine.py. The two run the same loop and
    differ only in how a child is made and what a finished game is worth, so
    the search is written once over `Rules`, the board calls it makes, and each
    engine is one `Rules` value (`EngineRules`).

    The search is proved against `MinimaxValue`, the plain minimax value of a
    node searched to the same depth: the result is that value whenever it lies
    strictly inside the window (alpha, beta), and a bound on it in the
    direction it fell out otherwise (a "fail-soft" search). */
module Minimax {
  import opened Common
  import opened Grid
  import opened Heuristic
  import GameplayBoard

  /** Which of the two engines. */
  datatype Version = Current | Legacy

  /** What a search node is: the board and whose turn it is. */
  datatype Node = Node(cells: Cells, turn: int)

  /** alpha and beta start as -inf and +inf, and `value` starts at one of them. */
  datatype Ext = NegInf | Fin(n: int) | PosInf

  /** a < b, with the infinities at either end. */
  predicate Less(a: Ext, b: Ext) {
    (a.NegInf? && !b.NegInf?) || (a.Fin? && b.PosInf?) || (a.Fin? && b.Fin? && a.n < b.n)
  }

  /** `max(a, b)` and `min(a, b)` */
  function ExtMax(a: Ext, b: Ext): (m: Ext)
    ensures !Less(m, a) && !Less(m, b) && (m == a || m == b)
  {
    if Less(a, b) then b else a
  }

  function ExtMin(a: Ext, b: Ext): (m: Ext)
    ensures !Less(a, m) && !Less(b, m) && (m == a || m == b)
  {
    if Less(b, a) then b else a
  }

  /** `is_terminal_node()`: a four for either side, or no playable column. */
  predicate IsTerminalNode(s: Node) {
    HasFour(s.cells, PLAYER_PIECE) || HasFour(s.cells, AI_PIECE) || |ValidColumns(s.cells)| == 0
  }

  /** What a finished game is worth to the AI. The current engine adds 10^15
      for an AI four and subtracts 10^15 for a player four; the legacy engine
      gives 10^14 for an AI four, else -10^13 for a player four, else 0. */
  function TerminalValue(v: Version, s: Node): int {
    match v
    case Current =>
      (if HasFour(s.cells, AI_PIECE) then 1000000000000000 else 0)
      + (if HasFour(s.cells, PLAYER_PIECE) then -1000000000000000 else 0)
    case Legacy =>
      if HasFour(s.cells, AI_PIECE) then 100000000000000
      else if HasFour(s.cells, PLAYER_PIECE) then -10000000000000
      else 0
  }

  /** The child searched for a playable column: a copy of the board with a piece
      at the column's next open row. The current engine drops the mover's
      piece `turn + 1` and passes the turn; the legacy engine drops the AI's
      piece at maximising nodes and the player's at minimising ones, on a fresh
      engine whose turn is 0. The searched node itself is a value and stays
      as it was. */
  function Child(v: Version, s: Node, max: bool, col: int): (child: Node)
    requires 0 <= col < COLS && ValidColumn(s.cells, col)
  {
    var row := OpenRow(s.cells, col).value;
    match v
    case Current => Node(Drop(s.cells, row, col, s.turn + 1), GameplayBoard.Toggle(s.turn))
    case Legacy => Node(Drop(s.cells, row, col, if max then AI_PIECE else PLAYER_PIECE), 0)
  }

  /** A child differs from its parent in the one cell, empty before, that the
      column's piece falls to. */
  lemma ChildDropsOnePiece(v: Version, s: Node, max: bool, col: int)
    requires 0 <= col < COLS && ValidColumn(s.cells, col)
    ensures var row := OpenRow(s.cells, col).value;
            var child := Child(v, s, max, col);
            At(s.cells, row, col) == EMPTY
            && At(child.cells, row, col) == (if v == Current then s.turn + 1 else if max then AI_PIECE else PLAYER_PIECE)
            && forall r, c | InBounds(r, c) && (r, c) != (row, col) :: At(child.cells, r, c) == At(s.cells, r, c)
  {
  }

  /** The board calls the search makes: `is_terminal_node()`, the worth of a
      finished game, `score_position(AI_PIECE)`, `get_valid_locations()`, and
      the child of a column. */
  datatype Rules = Rules(
    terminal: Node -> bool,
    worth: Node -> int,
    heuristic: Node -> int,
    moves: Node -> seq<int>,
    play: (Node, bool, int) -> Node)

  /** Every node that is not finished has a move. */
  ghost predicate Playable(R: Rules) {
    forall s: Node :: !R.terminal(s) ==> |R.moves(s)| > 0
  }

  /** The child of a column, for the columns `get_valid_locations` lists. */
  function Play(v: Version, s: Node, max: bool, col: int): Node {
    if 0 <= col < COLS && ValidColumn(s.cells, col) then Child(v, s, max, col) else s
  }

  /** The rules of each engine. */
  function EngineRules(v: Version): Rules {
    Rules(s => IsTerminalNode(s), s => TerminalValue(v, s), (s: Node) => PositionScore(s.cells, AI_PIECE),
          (s: Node) => ValidColumns(s.cells), (s, max, col) => Play(v, s, max, col))
  }

  /** The engines never search a node without a move: `is_terminal_node`
      includes the case of no playable column. */
  lemma EngineRulesPlayable(v: Version)
    ensures Playable(EngineRules(v))
  {
    forall s: Node ensures !EngineRules(v).terminal(s) ==> |EngineRules(v).moves(s)| > 0 {
    }
  }

  /** The minimax value of a node searched to `depth`: the heuristic at depth
      0 (even on a finished game), the game's worth on a finished game, and
      otherwise the best child value for the side to move. */
  function MinimaxValue(R: Rules, s: Node, depth: nat, max: bool): int
    requires Playable(R)
    decreases depth, 1
  {
    if depth == 0 then R.heuristic(s)
    else if R.terminal(s) then R.worth(s)
    else Best(max, ChildValues(R, s, depth, max), |R.moves(s)|)
  }

  /** The values of the children of the moves, in move order. */
  function ChildValues(R: Rules, s: Node, depth: nat, max: bool): (xs: seq<int>)
    requires Playable(R) && depth > 0
    ensures |xs| == |R.moves(s)|
    decreases depth, 0
  {
    var cols := R.moves(s);
    seq(|cols|, j requires 0 <= j < |cols| => MinimaxValue(R, R.play(s, max, cols[j]), depth - 1, !max))
  }

  /** The greatest (at maximising nodes) or least of the first n values. */
  function Best(max: bool, xs: seq<int>, n: nat): int
    requires 1 <= n <= |xs|
  {
    var x := xs[n - 1];
    if n == 1 then x
    else
      var y := Best(max, xs, n - 1);
      if max then (if x > y then x else y) else (if x < y then x else y)
  }

  /** x is no better than m for the side to move. */
  predicate NoBetter(max: bool, x: int, m: int) {
    if max then x <= m else x >= m
  }

  /** Every one of the first n values lies on the right side of their best. */
  lemma {:induction false} BestBounds(max: bool, xs: seq<int>, n: nat)
    requires 1 <= n <= |xs|
    ensures forall j | 0 <= j < n :: NoBetter(max, xs[j], Best(max, xs, n))
  {
    if n > 1 {
      BestBounds(max, xs, n - 1);
    }
  }

  /** Looking at more values never makes the best worse. */
  lemma {:induction false} BestMonotone(max: bool, xs: seq<int>, i: nat, n: nat)
    requires 1 <= i <= n <= |xs|
    ensures NoBetter(max, Best(max, xs, i), Best(max, xs, n))
    decreases n
  {
    if i < n {
      BestMonotone(max, xs, i, n - 1);
    }
  }

  /** A result r of a search of a node of value m in the window (lo, hi):
      exact inside the window, an upper bound at or below lo, a lower bound
      at or above hi. */
  predicate FailSoft(m: int, r: int, lo: Ext, hi: Ext) {
    (Less(lo, Fin(r)) && Less(Fin(r), hi) ==> r == m)
    && (!Less(lo, Fin(r)) ==> m <= r)
    && (!Less(Fin(r), hi) ==> r <= m)
  }

  /** Index k holds the first best value: xs[k] is m and every earlier value
      is strictly worse for the side to move. */
  predicate FirstBest(max: bool, xs: seq<int>, k: int, m: int)
    requires 0 <= k < |xs|
  {
    xs[k] == m && forall j | 0 <= j < k :: !NoBetter(max, m, xs[j])
  }

  /** The loop state of a maximising node after i children, whose values are
      xs: `best` is the running `value`, k the index of `column`. */
  predicate MaxInv(xs: seq<int>, alpha: Ext, beta: Ext, i: nat, best: Ext, k: nat) {
    1 <= i <= |xs| && k < i && best.Fin?
    && (Less(best, beta) ==> Best(true, xs, i) <= best.n)
    && (!Less(best, beta) ==> best.n <= Best(true, xs, i))
    && (Less(alpha, best) && Less(best, beta) ==> Best(true, xs, i) == best.n && FirstBest(true, xs, k, best.n))
  }

  /** The same for a minimising node, mirrored. */
  predicate MinInv(xs: seq<int>, alpha: Ext, beta: Ext, i: nat, best: Ext, k: nat) {
    1 <= i <= |xs| && k < i && best.Fin?
    && (Less(alpha, best) ==> best.n <= Best(false, xs, i))
    && (!Less(alpha, best) ==> Best(false, xs, i) <= best.n)
    && (Less(alpha, best) && Less(best, beta) ==> Best(false, xs, i) == best.n && FirstBest(false, xs, k, best.n))
  }

  /** One iteration of a maximising node: the child searched in the window
      (max(alpha, value), beta) returned r; `value` and `column` move to it
      when it is strictly greater. */
  lemma MaxStep(xs: seq<int>, alpha: Ext, beta: Ext, i: nat, best: Ext, k: nat, r: int)
    requires i < |xs| && Less(alpha, beta)
    requires i == 0 ==> best == NegInf
    requires i > 0 ==> MaxInv(xs, alpha, beta, i, best, k)
    requires Less(ExtMax(alpha, best), beta)
    requires FailSoft(xs[i], r, ExtMax(alpha, best), beta)
    ensures Less(best, Fin(r)) ==> MaxInv(xs, alpha, beta, i + 1, Fin(r), i)
                                    && ExtMax(ExtMax(alpha, best), Fin(r)) == ExtMax(alpha, Fin(r))
    ensures !Less(best, Fin(r)) ==> MaxInv(xs, alpha, beta, i + 1, best, k)
                                     && ExtMax(ExtMax(alpha, best), best) == ExtMax(alpha, best)
  {
    if i > 0 {
      BestBounds(true, xs, i);
    }
  }

  lemma MinStep(xs: seq<int>, alpha: Ext, beta: Ext, i: nat, best: Ext, k: nat, r: int)
    requires i < |xs| && Less(alpha, beta)
    requires i == 0 ==> best == PosInf
    requires i > 0 ==> MinInv(xs, alpha, beta, i, best, k)
    requires Less(alpha, ExtMin(beta, best))
    requires FailSoft(xs[i], r, alpha, ExtMin(beta, best))
    ensures Less(Fin(r), best) ==> MinInv(xs, alpha, beta, i + 1, Fin(r), i)
                                    && ExtMin(ExtMin(beta, best), Fin(r)) == ExtMin(beta, Fin(r))
    ensures !Less(Fin(r), best) ==> MinInv(xs, alpha, beta, i + 1, best, k)
                                     && ExtMin(ExtMin(beta, best), best) == ExtMin(beta, best)
  {
    if i > 0 {
      BestBounds(false, xs, i);
    }
  }

  /** The loop ends with every column searched or with alpha >= beta: either
      way the running value is a fail-soft result for the node. */
  lemma MaxDone(xs: seq<int>, alpha: Ext, beta: Ext, i: nat, best: Ext, k: nat)
    requires MaxInv(xs, alpha, beta, i, best, k) && Less(alpha, beta)
    requires i == |xs| || !Less(ExtMax(alpha, best), beta)
    ensures FailSoft(Best(true, xs, |xs|), best.n, alpha, beta)
    ensures Less(alpha, best) && Less(best, beta) ==> FirstBest(true, xs, k, best.n)
  {
    BestMonotone(true, xs, i, |xs|);
  }

  lemma MinDone(xs: seq<int>, alpha: Ext, beta: Ext, i: nat, best: Ext, k: nat)
    requires MinInv(xs, alpha, beta, i, best, k) && Less(alpha, beta)
    requires i == |xs| || !Less(alpha, ExtMin(beta, best))
    ensures FailSoft(Best(false, xs, |xs|), best.n, alpha, beta)
    ensures Less(alpha, best) && Less(best, beta) ==> FirstBest(false, xs, k, best.n)
  {
    BestMonotone(false, xs, i, |xs|);
  }

  /** The best of values within [lo, hi] is within [lo, hi]. */
  lemma {:induction false} BestWithin(max: bool, xs: seq<int>, n: nat, lo: int, hi: int)
    requires 1 <= n <= |xs| && forall j | 0 <= j < |xs| :: lo <= xs[j] <= hi
    ensures lo <= Best(max, xs, n) <= hi
  {
    if n > 1 {
      BestWithin(max, xs, n - 1, lo, hi);
    }
  }

  /** When every heuristic score and every finished game's worth lies in
      [lo, hi], so does every minimax value. */
  lemma {:induction false} ValueWithin(R: Rules, lo: int, hi: int, s: Node, depth: nat, max: bool)
    requires Playable(R)
    requires forall t: Node :: lo <= R.heuristic(t) <= hi && lo <= R.worth(t) <= hi
    ensures lo <= MinimaxValue(R, s, depth, max) <= hi
    decreases depth
  {
    if depth > 0 && !R.terminal(s) {
      var xs := ChildValues(R, s, depth, max);
      forall j | 0 <= j < |xs| ensures lo <= xs[j] <= hi {
        ValueWithin(R, lo, hi, R.play(s, max, R.moves(s)[j]), depth - 1, !max);
      }
      BestWithin(max, xs, |xs|, lo, hi);
    }
  }

  /** A won game outweighs every heuristic score and a lost one falls below
      every heuristic score, in both engines: the search prefers a forced win
      to any unfinished position and any unfinished position to a forced loss. */
  lemma WinOutweighsHeuristic(v: Version, s: Node, t: Cells)
    ensures HasFour(s.cells, AI_PIECE) && !HasFour(s.cells, PLAYER_PIECE) ==> TerminalValue(v, s) > PositionScore(t, AI_PIECE)
    ensures HasFour(s.cells, PLAYER_PIECE) && !HasFour(s.cells, AI_PIECE) ==> TerminalValue(v, s) < PositionScore(t, AI_PIECE)
  {
    PositionScoreBounds(t, AI_PIECE);
  }

  /** Every value the current engine computes lies between the worth of a
      lost and of a won game: -10^15 .. 10^15; the legacy engine's lie in
      -10^13 .. 10^14. */
  lemma EngineValueBounds(v: Version, s: Node, depth: nat, max: bool)
    ensures Playable(EngineRules(v))
    ensures v == Current ==> -1000000000000000 <= MinimaxValue(EngineRules(v), s, depth, max) <= 1000000000000000
    ensures v == Legacy ==> -10000000000000 <= MinimaxValue(EngineRules(v), s, depth, max) <= 100000000000000
  {
    EngineRulesPlayable(v);
    var R := EngineRules(v);
    var lo, hi := if v == Current then -1000000000000000 else -10000000000000,
                  if v == Current then 1000000000000000 else 100000000000000;
    forall t: Node ensures lo <= R.heuristic(t) <= hi && lo <= R.worth(t) <= hi {
      PositionScoreBounds(t.cells, AI_PIECE);
    }
    ValueWithin(R, lo, hi, s, depth, max);
  }

  /** `get_valid_locations()` (minimax/minimax_engine.py): the playable columns,
      collected in ascending order. */
  method ValidLocations(b: Cells) returns (cols: seq<int>)
    ensures cols == ValidColumns(b)
  {
    cols := [];
    for c := 0 to COLS
      invariant cols == ValidColumnsBelow(b, c)
    {
      if At(b, ROWS - 1, c) == EMPTY {
        cols := cols + [c];
      }
    }
  }

  /** One iteration's child: the copy of the board with the column played,
      searched one level deeper for the other side in the window (a, b). */
  method SearchChild(R: Rules, s: Node, depth: nat, max: bool, col: int, a: Ext, b: Ext) returns (r: int)
    requires Playable(R) && depth > 0 && Less(a, b)
    ensures FailSoft(MinimaxValue(R, R.play(s, max, col), depth - 1, !max), r, a, b)
    decreases depth, 0
  {
    var child := R.play(s, max, col);
    var _, newScore := Search(R, child, depth - 1, a, b, !max);
    r := newScore;
  }

  /** `minimax(depth, alpha, beta, adversarial)`. At depth 0 the heuristic of
      the AI's piece, on a finished game its worth, and otherwise the loop over
      the playable columns: each child is searched in the current window, a
      strictly better result takes `value` and `column`, alpha (at maximising
      nodes) or beta (at minimising ones) follows `value`, and the loop stops
      once alpha >= beta. The column first drawn at random is always replaced
      by the first child's, whose result is strictly better than the infinite
      start value. */
  method Search(R: Rules, s: Node, depth: nat, alpha: Ext, beta: Ext, max: bool) returns (column: Option<int>, value: int)
    requires Playable(R) && Less(alpha, beta)
    ensures depth == 0 ==> column == None && value == R.heuristic(s)
    ensures depth > 0 && R.terminal(s) ==> column == None && value == R.worth(s)
    ensures depth > 0 && !R.terminal(s) ==> column.Some? && column.value in R.moves(s)
    ensures FailSoft(MinimaxValue(R, s, depth, max), value, alpha, beta)
    ensures depth > 0 && !R.terminal(s) && Less(alpha, Fin(value)) && Less(Fin(value), beta) ==>
              exists k | 0 <= k < |R.moves(s)| :: column == Some(R.moves(s)[k])
                && FirstBest(max, ChildValues(R, s, depth, max), k, value)
    decreases depth, 1
  {
    var validLocations := R.moves(s);
    if depth == 0 {
      return None, R.heuristic(s);
    }
    if R.terminal(s) {
      return None, R.worth(s);
    }

    ghost var xs := ChildValues(R, s, depth, max);
    var best := if max then NegInf else PosInf;
    var k :| 0 <= k < |validLocations|;
    var a, b := alpha, beta;
    var i := 0;
    while i < |validLocations| && Less(a, b)
      invariant 0 <= i <= |validLocations| && 0 <= k < |validLocations|
      invariant i == 0 ==> best == (if max then NegInf else PosInf) && a == alpha && b == beta
      invariant i > 0 && max ==> MaxInv(xs, alpha, beta, i, best, k) && a == ExtMax(alpha, best) && b == beta
      invariant i > 0 && !max ==> MinInv(xs, alpha, beta, i, best, k) && a == alpha && b == ExtMin(beta, best)
      decreases |validLocations| - i
    {
      var newScore := SearchChild(R, s, depth, max, validLocations[i], a, b);
      assert xs[i] == MinimaxValue(R, R.play(s, max, validLocations[i]), depth - 1, !max);
      if max {
        MaxStep(xs, alpha, beta, i, best, k, newScore);
        if Less(best, Fin(newScore)) {
          best, k := Fin(newScore), i;
        }
        a := ExtMax(a, best);
      } else {
        MinStep(xs, alpha, beta, i, best, k, newScore);
        if Less(Fin(newScore), best) {
          best, k := Fin(newScore), i;
        }
        b := ExtMin(b, best);
      }
      i := i + 1;
    }
    if max {
      MaxDone(xs, alpha, beta, i, best, k);
    } else {
      MinDone(xs, alpha, beta, i, best, k);
    }
    column, value := Some(validLocations[k]), best.n;
  }
}
