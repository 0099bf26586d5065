/** alphaconnect4/agents/mcts_agent.py: the agent that plays with the plain
    Monte Carlo searcher over the nodes of alphaconnect4/interfaces/mcts_interface.py.
    A move runs rollouts from the given board while the clock and the rollout
    cap allow, drops the paths still pending, records a training sample when
    training, and answers the column of the chosen child.

    The wall clock is a parameter: `clockRollouts` is the number of rollouts
    that fit before `time.time()` passes the deadline. */
module MctsAgent {
  import opened Common
  import opened Grid
  import opened GameNode
  import opened Mcts
  import T = TreeInterface

  /** `board.action_indices`: one action per column. */
  function ActionIndices(): (actions: seq<int>)
    ensures |actions| == COLS && forall a | 0 <= a < COLS :: actions[a] == a
  {
    seq(COLS, a => a)
  }

  /** `[tmp_policy.get(action, 0) for action in action_indices]`. */
  function PolicyRow(dict: map<int, real>, actions: seq<int>): (row: seq<real>)
    ensures |row| == |actions|
  {
    seq(|actions|, i requires 0 <= i < |actions| => if actions[i] in dict then dict[actions[i]] else 0.0)
  }

  /** Entry a of the row is the policy of the child that plays column a, and
      0 for a column no child plays. */
  lemma PolicyRowByColumn(dict: map<int, real>)
    ensures |PolicyRow(dict, ActionIndices())| == COLS
    ensures forall a | 0 <= a < COLS && a in dict :: PolicyRow(dict, ActionIndices())[a] == dict[a]
    ensures forall a | 0 <= a < COLS && a !in dict :: PolicyRow(dict, ActionIndices())[a] == 0.0
  {
  }

  /** The board seen from the other side: `board_[board == 1] = 2` and
      `board_[board == 2] = 1`, both masks taken from the untouched board. */
  function SwapColours(b: Cells): (s: Cells)
    ensures forall i | 0 <= i < SIZE :: b[i] == EMPTY ==> s[i] == EMPTY
  {
    seq(SIZE, i requires 0 <= i < SIZE =>
      if b[i] == PLAYER_PIECE then AI_PIECE else if b[i] == AI_PIECE then PLAYER_PIECE else b[i])
  }

  /** Swapping twice gives the board back, and the empty cells stay where
      they are. */
  lemma SwapColoursInvolution(b: Cells)
    ensures SwapColours(SwapColours(b)) == b
    ensures EmptyCount(SwapColours(b)) == EmptyCount(b)
  {
    var s := SwapColours(b);
    assert forall i | 0 <= i < SIZE :: s[i] == EMPTY <==> b[i] == EMPTY;
    EmptyCountSame(b, s);
  }

  lemma {:induction false} EmptyCountSame(a: seq<int>, b: seq<int>)
    requires |a| == |b| && forall i | 0 <= i < |a| :: a[i] == EMPTY <==> b[i] == EMPTY
    ensures Count(a, EMPTY) == Count(b, EMPTY)
  {
    if a != [] {
      EmptyCountSame(a[..|a| - 1], b[..|b| - 1]);
    }
  }

  /** The training sample board: from the point of view of the player to
      move, whose pieces are always 1. */
  function SampleBoard(p: T.Position): Cells {
    if p.turn == 1 then SwapColours(p.cells) else p.cells
  }

  /** The player to move owns the 1 pieces of the sample board. */
  lemma SampleBoardMoverIsOne(p: T.Position)
    ensures forall i | 0 <= i < SIZE :: SampleBoard(p)[i] == PLAYER_PIECE <==> p.cells[i] == p.turn + 1
  {
  }

  /** `(board.board != 0).sum()`. */
  function Occupied(b: Cells): nat {
    SIZE - EmptyCount(b)
  }

  /** The number of rollouts `move` runs. */
  function Rollouts(clockRollouts: nat, maxRollouts: int): (n: nat)
    ensures n <= clockRollouts && (n <= maxRollouts || n == 0)
    ensures n == clockRollouts || n == maxRollouts || n == 0
  {
    if maxRollouts <= 0 then 0 else if clockRollouts <= maxRollouts then clockRollouts else maxRollouts
  }

  class MCTSAgent {
    const simulationTime: real
    const maxRollouts: int
    const tree: MCTS<T.Position, Cells>
    const trainingPath: Option<string>
    const isTraining: bool
    const showPbar: bool
    var boards: seq<Cells>
    var policies: seq<seq<real>>
    var aiConfidence: Option<ScoreValue>

    /** Between moves the search tree is well formed with no pending path,
        and every training board has its policy. */
    ghost predicate Valid()
      reads this, tree
    {
      tree.Valid() && tree.game == T.TheGame() && tree.variant == Vanilla
      && tree.backlog == [] && |boards| == |policies|
    }

    /** `MCTSAgent(simulation_time, max_rollouts, training_path, show_pbar)`:
        the rollout cap defaults to ten thousand per second of simulation
        time; the agent trains exactly when it has a training path, and never
        shows a progress bar then. `logBonus` is the searcher's
        `sqrt(log N / n)`. */
    constructor (simulationTime: real, maxRollouts: Option<int>, trainingPath: Option<string>, showPbar: bool,
                 logBonus: (nat, nat) -> real)
      ensures Valid() && fresh(tree)
      ensures this.maxRollouts == if maxRollouts.Some? then maxRollouts.value else Trunc(simulationTime * 10000.0)
      ensures this.simulationTime == simulationTime && this.trainingPath == trainingPath
      ensures isTraining <==> trainingPath.Some?
      ensures this.showPbar <==> showPbar && trainingPath.None?
      ensures boards == [] && policies == [] && aiConfidence == None
      ensures tree.explorationWeight == 1.0
      ensures tree.visitCount == map[] && tree.children == map[] && tree.qValue == map[]
    {
      this.simulationTime := simulationTime;
      this.maxRollouts := if maxRollouts.Some? then maxRollouts.value else Trunc(simulationTime * 10000.0);
      T.GameContract();
      tree := new MCTS(T.TheGame(), 1.0, Vanilla, n => Evaluation(0.0, []), logBonus, n => 0.0);
      this.trainingPath := trainingPath;
      isTraining := trainingPath.Some?;
      this.showPbar := showPbar && trainingPath.None?;
      boards := [];
      policies := [];
      aiConfidence := None;
    }

    /** `save_state(board)`: appends the policy of the board's node, one entry
        per action, and the board with the mover's pieces as 1. A node never
        expanded has no policy: `get_policy` raises KeyError and nothing is
        appended. */
    method SaveState(board: T.Position) returns (r: Result<()>)
      requires Valid()
      modifies this`boards, this`policies
      ensures Valid()
      ensures tree.GetPolicy(board).Err? ==> r == Err(KeyError) && boards == old(boards) && policies == old(policies)
      ensures tree.GetPolicy(board).Ok? ==>
                r.Ok? && policies == old(policies) + [PolicyRow(tree.GetPolicy(board).value, ActionIndices())]
                && boards == old(boards) + [SampleBoard(board)]
    {
      var tmpPolicy := tree.GetPolicy(board);
      if tmpPolicy.Err? {
        return Err(KeyError);
      }
      var policy := PolicyRow(tmpPolicy.value, ActionIndices());
      var board_ := board.cells;
      if board.turn == 1 {
        board_ := SwapColours(board.cells);
      }
      policies := policies + [policy];
      boards := boards + [board_];
      return Ok(());
    }

    /** `estimate_confidence(board)`: the score of the child `choose` picks;
        None, which no visit count holds, scores minus infinity. */
    method EstimateConfidence(board: T.Position) returns (r: Result<ScoreValue>, ghost chosen: Option<T.Position>)
      requires Valid()
      ensures r.Err? ==> r.error == ValueError
      ensures r.Ok? && chosen.Some? ==> r.value == tree.Score(chosen.value)
      ensures r.Ok? && chosen.None? ==> r.value == NegInf && T.IsTerminal(board)
      ensures T.Id(board) in tree.children && tree.children[T.Id(board)] != {} ==>
                r.Ok? && chosen.Some? && chosen.value in tree.children[T.Id(board)]
                && forall c | c in tree.children[T.Id(board)] :: tree.Visits(c.cells) <= tree.Visits(chosen.value.cells)
    {
      var optimal := tree.Choose(board);
      chosen := None;
      if optimal.Err? {
        return Err(optimal.error), None;
      }
      if optimal.value.None? {
        return Ok(NegInf), None;
      }
      chosen := optimal.value;
      r := Ok(tree.Score(optimal.value.value));
    }

    /** `move(board, turn)`: runs as many rollouts from the node as the clock
        and the cap allow, each adding one visit to the node; empties the
        backlog; records a sample when training; picks the child by sampling
        when training with fewer than ten pieces down, by most visits
        otherwise; then stores the confidence, the score of the child a
        second `choose` picks, and answers the picked child's column. An
        error of the choice leaves the stored confidence as it was; a
        terminal node has no child to answer with, which raises
        AttributeError after the confidence is stored. */
    method Move(cells: Cells, turn: int, clockRollouts: nat)
      returns (r: Result<int>, ghost stochastic: bool, ghost chosen: Option<T.Position>,
               ghost confident: Option<T.Position>)
      requires Valid() && Settled(cells) && (turn == 0 || turn == 1)
      modifies this`boards, this`policies, this`aiConfidence
      modifies tree`qValue, tree`visitCount, tree`children, tree`backlog, tree`pValue
      ensures Valid()
      ensures tree.Visits(cells) == old(tree.Visits(cells)) + Rollouts(clockRollouts, maxRollouts)
      ensures stochastic <==> isTraining && Occupied(cells) < 10
      ensures !isTraining ==> boards == old(boards) && policies == old(policies)
      ensures isTraining && r.Ok? ==> |boards| == |old(boards)| + 1
                                      && boards[|boards| - 1] == SampleBoard(T.Tree(cells, turn, None))
      ensures r.Ok? ==> chosen.Some? && r.value == T.LastMove(chosen.value) && 0 <= r.value < COLS
      ensures r.Ok? && cells in tree.children ==> chosen.Some? && chosen.value in tree.children[cells]
      ensures r.Ok? && cells !in tree.children ==> chosen.Some? && chosen.value in T.Children(T.Tree(cells, turn, None))
      ensures r.Ok? && !stochastic && cells in tree.children ==>
                chosen.Some? && forall c | c in tree.children[cells] :: tree.Visits(c.cells) <= tree.Visits(chosen.value.cells)
      ensures r.Ok? && stochastic && cells in tree.children ==> chosen.Some? && tree.Visits(chosen.value.cells) > 0
      ensures r.Ok? || r == Err(AttributeError) ==>
                aiConfidence == Some(if confident.Some? then tree.Score(confident.value) else NegInf)
      ensures (r.Ok? || r == Err(AttributeError)) && cells in tree.children && tree.children[cells] != {} ==>
                confident.Some? && confident.value in tree.children[cells]
                && forall c | c in tree.children[cells] :: tree.Visits(c.cells) <= tree.Visits(confident.value.cells)
      ensures r.Err? && r.error != AttributeError ==> aiConfidence == old(aiConfidence)
    {
      var board: T.Position := T.Root(cells, turn);
      RunRollouts(board, clockRollouts);
      stochastic := isTraining && Occupied(cells) < 10;
      chosen, confident := None, None;
      if isTraining {
        var saved := SaveState(board);
        if saved.Err? {
          return Err(saved.error), stochastic, chosen, confident;
        }
      }
      r, chosen, confident := Answer(board);
    }

    /** The end of `move`: the choice, then the confidence, then the column.
        An error of the choice leaves the stored confidence as it was. */
    method Answer(board: T.Position) returns (r: Result<int>, ghost chosen: Option<T.Position>,
                                              ghost confident: Option<T.Position>)
      requires Valid()
      modifies this`aiConfidence
      ensures r.Ok? ==> chosen.Some? && r.value == T.LastMove(chosen.value) && 0 <= r.value < COLS
      ensures r.Ok? && T.Id(board) in tree.children ==> chosen.Some? && chosen.value in tree.children[T.Id(board)]
      ensures r.Ok? && T.Id(board) !in tree.children ==> chosen.Some? && chosen.value in T.Children(board)
      ensures r.Ok? && !(isTraining && Occupied(board.cells) < 10) && T.Id(board) in tree.children ==>
                chosen.Some? && forall c | c in tree.children[T.Id(board)] :: tree.Visits(c.cells) <= tree.Visits(chosen.value.cells)
      ensures r.Ok? && isTraining && Occupied(board.cells) < 10 && T.Id(board) in tree.children ==>
                chosen.Some? && tree.Visits(chosen.value.cells) > 0
      ensures r.Ok? || r == Err(AttributeError) ==>
                aiConfidence == Some(if confident.Some? then tree.Score(confident.value) else NegInf)
      ensures (r.Ok? || r == Err(AttributeError)) && T.Id(board) in tree.children && tree.children[T.Id(board)] != {} ==>
                confident.Some? && confident.value in tree.children[T.Id(board)]
                && forall c | c in tree.children[T.Id(board)] :: tree.Visits(c.cells) <= tree.Visits(confident.value.cells)
      ensures r.Err? && r.error != AttributeError ==> aiConfidence == old(aiConfidence)
    {
      chosen, confident := None, None;
      var optimalBoard := ChooseMove(board);
      if optimalBoard.Err? {
        return Err(optimalBoard.error), chosen, confident;
      }
      var confidence;
      confidence, confident := EstimateConfidence(board);
      if confidence.Err? {
        return Err(confidence.error), chosen, confident;
      }
      aiConfidence := Some(confidence.value);
      if optimalBoard.value.None? {
        return Err(AttributeError), chosen, confident;
      }
      chosen := optimalBoard.value;
      r := Ok(T.LastMove(optimalBoard.value.value));
    }

    /** The rollout loop of `move`: one rollout per turn of the loop while the
        clock and the cap allow, each adding one visit to the node; then the
        pending paths are dropped. */
    method RunRollouts(board: T.Position, clockRollouts: nat)
      requires Valid()
      modifies tree`qValue, tree`visitCount, tree`children, tree`backlog, tree`pValue
      ensures Valid()
      ensures tree.Visits(board.cells) == old(tree.Visits(board.cells)) + Rollouts(clockRollouts, maxRollouts)
    {
      var numRollout := 0;
      ghost var visits0 := tree.Visits(board.cells);
      while numRollout < clockRollouts && numRollout < maxRollouts
        invariant numRollout <= Rollouts(clockRollouts, maxRollouts)
        invariant tree.Valid() && StartsAt(tree.backlog, board)
        invariant tree.Visits(board.cells) == visits0 + numRollout
        decreases clockRollouts - numRollout
      {
        numRollout := numRollout + 1;
        ghost var path, reward, playout := tree.DoRollout(board);
      }
      tree.backlog := [];
    }

    /** The choice rule of `move`: sample a child while training with fewer
        than ten pieces on the board, otherwise take a most visited one. The
        answer, when there is one, plays a column. */
    method ChooseMove(board: T.Position) returns (r: Result<Option<T.Position>>)
      requires Valid()
      ensures r.Err? ==> r.error == ValueError || r.error == IndexError
      ensures r.Ok? && r.value.Some? ==> 0 <= T.LastMove(r.value.value) < COLS
      ensures !(isTraining && Occupied(board.cells) < 10) && T.Id(board) in tree.children ==>
                (r.Ok? <==> tree.children[T.Id(board)] != {})
      ensures !(isTraining && Occupied(board.cells) < 10) && T.Id(board) in tree.children && r.Ok? ==>
                r.value.Some? && r.value.value in tree.children[T.Id(board)]
                && forall c | c in tree.children[T.Id(board)] :: tree.Visits(c.cells) <= tree.Visits(r.value.value.cells)
      ensures isTraining && Occupied(board.cells) < 10 && T.Id(board) in tree.children && r.Ok? ==>
                r.value.Some? && r.value.value in tree.children[T.Id(board)] && tree.Visits(r.value.value.cells) > 0
      ensures T.Id(board) !in tree.children ==>
                r.Ok? && (r.value.None? <==> T.IsTerminal(board)) && (r.value.Some? ==> r.value.value in T.Children(board))
    {
      if Occupied(board.cells) < 10 && isTraining {
        r := tree.ChooseStochastic(board);
      } else {
        r := tree.Choose(board);
      }
      if r.Ok? && r.value.Some? {
        ChildColumn(board, r.value.value);
      }
    }

    /** A child the searcher can answer with plays one of the columns. */
    lemma ChildColumn(board: T.Position, child: T.Position)
      requires Valid()
      requires child in T.Children(board)
               || (T.Id(board) in tree.children && child in tree.children[T.Id(board)])
      ensures 0 <= T.LastMove(child) < COLS
    {
      if child in T.Children(board) {
        var i := T.ChildIndex(T.IsTerminal(board), board, child);
      }
    }
  }
}
