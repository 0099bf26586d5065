# AlphaConnect4 search core in Dafny

This project models the move-selection core of AlphaConnect4, a Connect-Four (and Quarto) player. The core has four parts.

**The Monte Carlo tree searcher.** `MCTS` keeps four dictionaries and a list, all keyed by node identity: `q_value`, `visit_count`, `children` and `p_value` (the priors), plus the `unexplored_backlog` of root-to-frontier paths. One `do_rollout` does four things:
- selects a path, taking the most recently pushed backlog path when there is one;
- expands the path's last node once;
- values that leaf, by a random playout or by the network;
- sends the value back up the path, flipping it to `1 - reward` at every level.

The two `NeuralMCTS` searchers change the leaf valuation, the prior assignment and the selection score. They are one class here: a `Variant` chosen at construction selects them.

**The agent.** `MCTSAgent` runs capped rollouts from the board it is given and then empties the backlog. When training, it records a sample: the board seen from the mover and a policy row over the seven columns. It then answers with the column of the chosen child.

**The game nodes.** These are:
- the two Connect-Four board classes and the Quarto board, as classes whose cells (an `array`), turn and last move are updated in place;
- three `Connect4Tree` adapters that give the searcher `find_children`, `find_random_child`, `reward` and an identity that is the board contents alone.

**The minimax engines, the policy padding and the request parser.** Both engines run a depth-limited alpha-beta `minimax` with a hand-written window heuristic. `normalize_policies` pads training policies before training. `board_from_string` is the move request parser.

## How the pieces fit

- A Connect-Four board is a value `Cells`: 42 integers, row-major, with row 0 at the bottom and cell (r, c) at offset 7r + c. A cell is 0 when empty, 1 for the player's piece and 2 for the AI's.
- The board classes keep an `array<int>` and are proved against functions of `Cells` (module `Grid`).
- The searcher is generic over a `Game<N, K>` record: node identity, children, terminal test, reward, last move, and a rank (the number of empty cells) that every move lowers. This rank makes every descent and every playout finite.
- `GameNode.Contract` states what the searcher assumes of a game: a node is terminal exactly when it has no children, a move lowers the rank, and siblings differ in identity and in last move. Each adapter proves `GameContract` for boards whose pieces rest on one another, with the turn 0 or 1.
- Randomness (`random.choice`, `random.choices`) is nondeterministic choice (`:|`). The proved contracts hold for every choice.
- `math.log` and `math.sqrt` in the selection scores are function parameters of the searcher (`logBonus`, `sqrtOf`).
- The agent's wall clock is the parameter `clockRollouts`: the number of rollouts that fit before the deadline.
- The minimax search is written once, over `Rules`, a record of the board calls it makes. Each engine is one `Rules` value.
- `Search` is proved against `MinimaxValue`, the plain minimax value of the same depth. It is exact inside the window (alpha, beta) and a bound outside it (fail-soft).

Three behaviours of the code are worth stating outright, since the model follows them:
- `_select` takes the last path of the backlog (`pop()`, alphaconnect4/engines/mcts.py line 91), so the most recently pushed path is rolled out first.
- A node's identity is the hash of the board bytes alone, without the turn (alphaconnect4/interfaces/mcts_interface.py lines 20-21 and 63-67).
- `choose` and `choose_stochastic` on an unexpanded node fall back to `find_random_child()`, which answers None on a terminal node (alphaconnect4/engines/mcts.py lines 55-56 and 66-67); only the legacy `choose_stochastic` raises RuntimeError on a terminal node.

## Model

| member | source | states |
|---|---|---|
| Common.Trunc | alphaconnect4/engines/mcts.py:30 | Python's `int()` on a float truncates toward zero: the result is within 1 of x and not farther from 0 than x. |
| Grid.EmptyBoard | gameplay/board.py:8 | The default board is 42 cells, all 0. |
| Grid.Drop | gameplay/board.py:17 | Writing v at (r, c) changes exactly that cell. |
| Grid.OpenRowFrom | gameplay/board.py:24-28 | The next open row is the least row whose cell in the column is 0, or None when there is none. |
| Grid.ValidColumnsBelow | gameplay/board.py:71-76 | The valid locations are ascending, each has an empty top cell, and every column with an empty top cell is listed. |
| Grid.NoValidColumns | alphaconnect4/interfaces/mcts_interface.py:61 | The list of valid locations is empty exactly when no column's top cell is empty. |
| Grid.SettledHasMove | alphaconnect4/interfaces/mcts_interface.py:23-24 | A board whose pieces rest on one another and that is not full has a valid column. |
| Grid.DropKeepsSettled | alphaconnect4/interfaces/mcts_interface.py:32-34 | Dropping at a valid column's next open row keeps every piece resting on another. |
| Grid.DropFillsOneCell | alphaconnect4/interfaces/mcts_interface.py:32-34 | A drop into an empty cell removes exactly one empty cell. |
| Grid.DropKeepsOtherFours | engines/mcts_interface.py:52-54 | Dropping one side's piece never gives the other side a line of four. |
| Grid.EmptyHasNoFour | gameplay/board.py:33-69 | The empty board has no line of four of any piece. |
| GameNode.FindRandomChild | alphaconnect4/engines/mcts.py:161-169 | `find_random_child()` is None exactly on a terminal node, otherwise one of its children. |
| GameNode.ArgMax | alphaconnect4/engines/mcts.py:58 | `max(s, key=f)` returns a member of s that no other member beats on f. |
| GameNode.SortByKey | alphaconnect4/engines/mcts.py:36 | `sorted(s, key=last_move)` lists every element once, with keys strictly ascending. |
| Mcts.Flip | alphaconnect4/engines/mcts.py:130 | j levels above the leaf the reward is r for even j and 1 - r for odd j. |
| Mcts.AddRewardsOnPath | alphaconnect4/engines/mcts.py:125-130 | On a path of distinct nodes, the j-th node's q grows by r flipped once per level between it and the leaf: r, 1-r, r, ... from leaf to root. |
| Mcts.AddRewardsOffPath | alphaconnect4/engines/mcts.py:125-130 | Backpropagation leaves the q of every node off the path unchanged, present or absent as before. |
| Mcts.BumpVisitsOnPath | alphaconnect4/engines/mcts.py:127-128 | Every node of a path of distinct nodes gains exactly one visit. |
| Mcts.BumpVisitsOffPath | alphaconnect4/engines/mcts.py:127-128 | Nodes off the path keep their visit counts. |
| Mcts.Simulate | alphaconnect4/engines/mcts.py:114-123 | The playout is a chain of children ending at a terminal node. The result is `1 - reward()` of that node after an even number of plies (none included) and `reward()` after an odd number. |
| Mcts.RankChainDistinct | alphaconnect4/engines/mcts.py:84-106 | A selected path never meets the same node twice, so backpropagation updates each node once. |
| Mcts.PushedPathsOk | alphaconnect4/engines/mcts.py:99-103 | Every path pushed for an unexplored child extends the current path by that child and starts at the root. |
| Mcts.TakeLastPushed | alphaconnect4/engines/mcts.py:91 | The path popped after pushing is the current path plus one unexplored child. The paths left behind are the pushed paths of the other children. |
| Mcts.VisitsAfterRollout | alphaconnect4/engines/mcts.py:76-82 | After a rollout every expanded node has at least one visit, so no selection score divides by zero. |
| Mcts.PolicyMapAt | alphaconnect4/engines/mcts.py:35 | The dictionary policy maps each child's last move to its visits over the denominator. |
| Mcts.PolicyListAt | alphaconnect4/engines/mcts.py:36 | The list policy holds the dictionary's values, in ascending order of last move. |
| Mcts.SortedIdsDistinct | engines/neural_mcts.py:43 | The children sorted by last move are distinct nodes. |
| Mcts.MinLength | engines/neural_mcts.py:43 | `zip` stops at the shorter of its two lists. |
| Mcts.MCTS.constructor | alphaconnect4/engines/mcts.py:19-25 | A new searcher has empty dictionaries, an empty backlog and no priors. |
| Mcts.MCTS.Score | alphaconnect4/engines/mcts.py:27-30 | The score is minus infinity exactly for an unvisited node. Otherwise, times the visits, it is the q value truncated to an integer. |
| Mcts.MCTS.PolicyDenominator | alphaconnect4/engines/mcts.py:33 | The denominator is never 0. From 2 visits on it is the visits minus 1. |
| Mcts.MCTS.GetPolicy | alphaconnect4/engines/mcts.py:32-35 | KeyError exactly for an unexpanded node. Otherwise the keys are the children's last moves, and each value is that child's visits over the denominator. |
| Mcts.MCTS.PolicyFollowsVisits | alphaconnect4/engines/mcts.py:35 | A child visited at least as often as a sibling gets at least the sibling's policy value. |
| Mcts.MCTS.GetPolicyList | alphaconnect4/engines/mcts.py:36 | KeyError exactly for an unexpanded node. Otherwise there is one entry per child. |
| Mcts.MCTS.PolicyListMatchesDict | alphaconnect4/engines/mcts.py:32-36 | Entry i of the list is the dictionary value of the i-th child by ascending last move. |
| Mcts.MCTS.Choose | alphaconnect4/engines/mcts.py:49-58 | An unexpanded node falls back to a random child (None exactly when terminal). An expanded node with no children raises ValueError. Otherwise the result is a recorded child with the most visits. |
| Mcts.MCTS.ChooseStochastic | alphaconnect4/engines/mcts.py:60-74 | An unexpanded node falls back to a random child, and an empty child set raises IndexError. Otherwise the draw succeeds exactly when some child has a visit (a positive weight), and it returns such a child; if no child has a visit it raises ValueError. In engines/neural_mcts.py:17-27, the legacy searcher raises RuntimeError on a terminal node. It raises ValueError when a child is unvisited (weight minus infinity) or when the scores do not sum to a positive total. Otherwise it returns a recorded child whose score, its weight, is positive. |
| Mcts.MCTS.DrawByScore | engines/neural_mcts.py:26-27 | `random.choices` weighted by `score`: ValueError exactly when the scores do not sum to more than 0, otherwise a recorded child of positive score. |
| Mcts.MCTS.PositiveScore | engines/neural_mcts.py:27 | Visited nodes whose scores sum to more than 0 include one of positive score. |
| Mcts.MCTS.Unexplored | alphaconnect4/engines/mcts.py:97 | The unexplored children are the recorded children that are not keys of `children`. |
| Mcts.MCTS.UctSelect | alphaconnect4/engines/mcts.py:132-146 | The result is a recorded child with the greatest `q/n + w*sqrt(ln N / n)`. Every child is expanded and visited. In alphaconnect4/engines/neural_mcts.py:33-47, for `NeuralMCTS`, the result is a recorded child with the greatest `q/n + w*p*sqrt(N)/(1+n)`. In engines/neural_mcts.py:47-62: The legacy searcher requires every child to be expanded (its assert). The result is a child with the greatest `q/n + w*p*sqrt(ln N / n)`. |
| Mcts.MCTS.Descend | alphaconnect4/engines/mcts.py:87-106 | The descent starts at the root and follows selection steps. It stops at a node that is unexpanded, childless, or has unexplored children. |
| Mcts.MCTS.PushPaths | alphaconnect4/engines/mcts.py:99-103 | One path, current path plus c, is appended for each unexplored child c. Earlier entries are kept. |
| Mcts.MCTS.Select | alphaconnect4/engines/mcts.py:84-106 | With a pending path, the result is the last one, and the backlog loses exactly it. Otherwise the descent follows `_uct_select` from the root along recorded children and ends at an unexpanded or childless node. If nothing was pushed, the path is that descent and the backlog stays empty. If unexplored children were pushed, the path is the descent plus one of them, and the backlog plus the path are exactly the pushed paths, one per unexplored child. |
| Mcts.MCTS.PushAndTake | alphaconnect4/engines/mcts.py:97-104 | After pushing, the path taken is the stem plus one unexplored child. The pushed paths, this one included, are one per unexplored child. |
| Mcts.MCTS.Expand | alphaconnect4/engines/mcts.py:108-112 | An existing children entry is never recomputed. Only the leaf's entry can be added. |
| Mcts.MCTS.Backpropagate | alphaconnect4/engines/mcts.py:125-130 | The new visit and q maps are the old ones with the path's visits bumped and the alternating rewards added. |
| Mcts.MCTS.AssignPriors | alphaconnect4/engines/neural_mcts.py:28-29 | Every child gets the policy entry at its last move. No other prior changes. |
| Mcts.MCTS.AssignSortedPriors | engines/neural_mcts.py:43-44 | The i-th child by ascending last move gets the i-th policy entry, as far as the shorter list goes. No other prior changes. |
| Mcts.MCTS.AssignZip | engines/neural_mcts.py:43-44 | `zip(policy, nodes)` gives node i the entry i, for the first min-length pairs. |
| Mcts.MCTS.ValueLeaf | alphaconnect4/engines/mcts.py:81 | The base searcher values the leaf by a random playout and leaves the priors alone. In alphaconnect4/engines/neural_mcts.py:22-29, a terminal leaf is worth `1 - reward()` with no network call. Otherwise it is worth `1 - value`, and the children's priors follow the policy by last move. In engines/neural_mcts.py:35-44: The same valuation, with priors paired by sorted zip. |
| Mcts.MCTS.DoRollout | alphaconnect4/engines/mcts.py:76-82 | The path is the popped backlog path or a path from the root. Only the leaf is expanded, and the path's nodes (all distinct) gain one visit each and the alternating reward. The tree stays well formed, and the root gains one visit when every pending path starts at it. In alphaconnect4/engines/neural_mcts.py:16-31, backpropagation runs on the selected path with the network's valuation, exactly as in the base searcher. In engines/neural_mcts.py:29-45: The same for the legacy searcher. |
| Mcts.MCTS.Rollout | alphaconnect4/engines/mcts.py:78-82 | On a selected path: only the leaf is expanded, the path's nodes are distinct and each gains one visit and the alternating reward, and the path's first node gains exactly one visit. |
| Heuristic.EvaluateWindow | alphaconnect4/engines/minimax_engine.py:49-68 | A window scores between -4 and 100. |
| Heuristic.WindowOfFour | alphaconnect4/engines/minimax_engine.py:58-59 | A window scores 100 exactly when all four cells hold the piece. |
| Heuristic.FourScoresHundred | minimax/minimax_engine.py:9-26 | Every line of four of a piece is a window worth 100 to that piece. |
| Heuristic.PositionScoreBounds | alphaconnect4/engines/minimax_engine.py:70-104 | The 69 windows and the centre column bound every position score to -276 .. 6918. |
| Heuristic.ScorePosition | alphaconnect4/engines/minimax_engine.py:70-104 | The loops compute the centre bonus plus the sum over every window of the four directions. In minimax/minimax_engine.py:28-61, the legacy engine's score is the same. |
| Heuristic.HorizontalScore | alphaconnect4/engines/minimax_engine.py:79-84 | The row slices are exactly the horizontal windows. |
| Heuristic.VerticalScore | alphaconnect4/engines/minimax_engine.py:86-91 | The column slices are exactly the vertical windows. |
| Heuristic.DiagonalScore | alphaconnect4/engines/minimax_engine.py:93-97 | The rising diagonal windows. |
| Heuristic.AntiDiagonalScore | alphaconnect4/engines/minimax_engine.py:99-102 | The falling diagonal windows. |
| Minimax.ExtMax | alphaconnect4/engines/minimax_engine.py:39 | `max(alpha, value)` is one of the two and no smaller than either. |
| Minimax.ExtMin | alphaconnect4/engines/minimax_engine.py:44 | `min(beta, value)` is one of the two and no larger than either. |
| Minimax.ChildDropsOnePiece | alphaconnect4/engines/minimax_engine.py:30-32 | A child differs from its node only in the empty cell its piece falls to: the mover's piece in the current engine, the side's piece in the legacy one. The node itself is not changed. In minimax/minimax_engine.py:84-88, the legacy child places the AI's piece at maximising nodes and the player's at minimising ones. |
| Minimax.EngineRulesPlayable | alphaconnect4/engines/minimax_engine.py:12-13 | Every node that is not terminal has a valid location. |
| Minimax.MaxStep | alphaconnect4/engines/minimax_engine.py:35-39 | A strictly greater child result takes value and column, and alpha follows value. The running value stays a fail-soft bound on the best so far. |
| Minimax.MinStep | alphaconnect4/engines/minimax_engine.py:40-44 | The mirror for minimising nodes and beta. |
| Minimax.MaxDone | alphaconnect4/engines/minimax_engine.py:45-47 | Stopping at alpha >= beta, or after the last column, leaves a fail-soft result. |
| Minimax.MinDone | minimax/minimax_engine.py:112-115 | The same for minimising nodes. |
| Minimax.WinOutweighsHeuristic | alphaconnect4/engines/minimax_engine.py:22-25 | In both engines a won game is worth more than any heuristic score and a lost one less. |
| Minimax.EngineValueBounds | minimax/minimax_engine.py:72-78 | Every minimax value lies in -10^15 .. 10^15 (current engine) or -10^13 .. 10^14 (legacy engine). |
| Minimax.ValidLocations | minimax/minimax_engine.py:117-122 | The playable columns, ascending. |
| Minimax.SearchChild | alphaconnect4/engines/minimax_engine.py:31-33 | The child searched in the window gives a fail-soft result for the child's value. |
| Minimax.Search | alphaconnect4/engines/minimax_engine.py:15-47 | At depth 0 the result is `(None, score_position(AI_PIECE))`, even on a finished game. On a finished game it is `(None, worth)`. Otherwise the column is a valid location, and the value is the depth-limited minimax value when inside (alpha, beta) and a bound on it outside. Inside the window the column is the first one reaching that value. In minimax/minimax_engine.py:66-115, the same for the legacy split maximising and minimising loops, with its own terminal values. |
| GameplayBoard.Toggle | gameplay/board.py:13-14 | The turn goes between 0 and 1. |
| GameplayBoard.Board.constructor | gameplay/board.py:7-11 | A given array is kept. Otherwise the board is a fresh array of zeros, and there is no last move. |
| GameplayBoard.Board.UpdateTurn | gameplay/board.py:13-14 | The turn toggles. |
| GameplayBoard.Board.DropPiece | gameplay/board.py:16-19 | Exactly one cell becomes `turn + 1`, the last move is the column, and the turn toggles. |
| GameplayBoard.Board.IsValidLocation | gameplay/board.py:21-22 | The location is valid exactly when the top cell of the column is 0. |
| GameplayBoard.Board.GetNextOpenRow | gameplay/board.py:24-28 | The scan returns the least empty row of the column, or None. |
| GameplayBoard.Board.ScanDirection | gameplay/board.py:35-41 | One double loop finds a line of four exactly when one exists in its direction. |
| GameplayBoard.Board.WinningMove | gameplay/board.py:33-69 | True exactly when some horizontal, vertical or diagonal line of four holds the piece. |
| GameplayBoard.Board.GetValidLocations | gameplay/board.py:71-76 | The valid columns, ascending. |
| Connect4Board.ValidActions | alphaconnect4/interfaces/connect4/connect4_board.py:55-57 | One action per valid column, in column order, each at that column's next open row. |
| Connect4Board.Connect4Board.constructor | alphaconnect4/interfaces/connect4/connect4_board.py:8-19 | A given array is kept. Otherwise the board is 6 x 7 zeros, and the action indices are 0 .. 6. |
| Connect4Board.Connect4Board.UpdateTurn | alphaconnect4/interfaces/connect4/connect4_board.py:21-22 | The turn becomes 1 - turn. |
| Connect4Board.Connect4Board.DropPiece | alphaconnect4/interfaces/connect4/connect4_board.py:24-28 | `turn + 1` is written at (row, col) and no other cell changes. The last move is the column and the turn flips. |
| Connect4Board.Connect4Board.IsValidAction | alphaconnect4/interfaces/connect4/connect4_board.py:30-32 | An action is valid exactly when its cell is 0. |
| Connect4Board.Connect4Board.GetNextOpenRow | alphaconnect4/interfaces/connect4/connect4_board.py:34-38 | The least row with a 0 in the column, or None. |
| Connect4Board.Connect4Board.WinningMove | alphaconnect4/interfaces/connect4/connect4_board.py:43-48 | Only the piece of the player who has just moved (2 - turn) is tested for a line of four. |
| Connect4Board.Connect4Board.Tie | alphaconnect4/interfaces/connect4/connect4_board.py:50-53 | A tie exactly when no cell is 0. |
| Connect4Board.Connect4Board.GetValidActions | alphaconnect4/interfaces/connect4/connect4_board.py:55-57 | The actions are exactly (next open row, col) for the columns with an empty top cell, in ascending column order. |
| QuartoBoard.Bit | alphaconnect4/interfaces/quarto/quarto_board.py:44 | `unpackbits(..., bitorder='little')` gives bit k, 0 or 1. |
| QuartoBoard.MissingBelow | alphaconnect4/interfaces/quarto/quarto_board.py:11-12 | The available pieces are exactly the ids 0..15 not on the board, ascending. |
| QuartoBoard.Remove | alphaconnect4/interfaces/quarto/quarto_board.py:31 | `list.remove` raises ValueError exactly when the id is absent. Otherwise it drops the first occurrence. |
| QuartoBoard.RemoveKeepsOrder | alphaconnect4/interfaces/quarto/quarto_board.py:31 | Removing from an ascending list keeps it ascending and removes only that id. |
| QuartoBoard.BitFour | alphaconnect4/interfaces/quarto/quarto_board.py:47 | For codes 0..16, bit 4 is clear exactly on a piece (not the empty code 16). |
| QuartoBoard.LineOf | alphaconnect4/interfaces/quarto/quarto_board.py:15-18 | Each valid placement of the row, column, eye and flipped-eye kernels covers one of the ten lines of the board. |
| QuartoBoard.WinsMatchesLines | alphaconnect4/interfaces/quarto/quarto_board.py:45-52 | The kernel test over all four channels holds exactly when some line of four pieces agrees on one attribute. |
| QuartoBoard.Wins | alphaconnect4/interfaces/quarto/quarto_board.py:43-53 | The intended win rule: some row, column or diagonal of four pieces shares an attribute. |
| QuartoBoard.WinningMoveMissesBitOne | alphaconnect4/interfaces/quarto/quarto_board.py:45-53 | A bottom row of pieces 2, 3, 6, 7 shares attribute 1 and is won, yet the as-written test reports no win. |
| QuartoBoard.EmptyCellsBelow | alphaconnect4/interfaces/quarto/quarto_board.py:62 | The cells holding 16, row-major ascending. |
| QuartoBoard.Product | alphaconnect4/interfaces/quarto/quarto_board.py:63-64 | The actions are exactly the (row, col, piece) triples of an empty cell and an available piece. |
| QuartoBoard.QuartoBoard.constructor | alphaconnect4/interfaces/quarto/quarto_board.py:9-22 | A missing board starts as sixteen 16s. The available pieces are the ids not on the board, ascending. |
| QuartoBoard.QuartoBoard.UpdateTurn | alphaconnect4/interfaces/quarto/quarto_board.py:24-25 | The turn becomes 1 - turn. |
| QuartoBoard.QuartoBoard.DropPiece | alphaconnect4/interfaces/quarto/quarto_board.py:27-32 | The cell and last move are written first. An unavailable piece then raises ValueError with the turn unchanged. Otherwise the piece leaves the available list and the turn flips. A valid action keeps the available list equal to the missing ids. |
| QuartoBoard.QuartoBoard.IsValidAction | alphaconnect4/interfaces/quarto/quarto_board.py:34-38 | Valid exactly when the piece is available and the cell holds 16. |
| QuartoBoard.QuartoBoard.WinningMove | alphaconnect4/interfaces/quarto/quarto_board.py:43-53 | As written, true exactly when a kernel finds four pieces agreeing on attribute 0. No other attribute is examined. |
| QuartoBoard.QuartoBoard.WinningMoveAllChannels | alphaconnect4/interfaces/quarto/quarto_board.py:43-53 | With the early return moved after the channel loop, true exactly when the win rule holds. |
| QuartoBoard.QuartoBoard.Tie | alphaconnect4/interfaces/quarto/quarto_board.py:55-58 | A tie exactly when no cell holds 16. |
| QuartoBoard.QuartoBoard.GetValidActions | alphaconnect4/interfaces/quarto/quarto_board.py:60-64 | Every pair of an empty cell and an available piece, and nothing else. |
| TreeInterface.Root | alphaconnect4/interfaces/mcts_interface.py:9-12 | A new node holds the board and turn and has no last move. |
| TreeInterface.CreateChild | alphaconnect4/interfaces/mcts_interface.py:14-18 | The child's board is the parent's with the mover's piece at (row, col) and nothing else changed. It records the column and passes the turn. The parent is unchanged. |
| TreeInterface.Child | alphaconnect4/interfaces/mcts_interface.py:32-34 | A child of a valid column has one empty cell fewer and records that column. |
| TreeInterface.ChildList | alphaconnect4/interfaces/mcts_interface.py:32-34 | One child per valid column, in column order. |
| TreeInterface.CollectChildren | alphaconnect4/interfaces/mcts_interface.py:30-36 | The loop collects exactly the children of the valid columns. |
| TreeInterface.FindChildren | alphaconnect4/interfaces/mcts_interface.py:26-36 | Empty on a terminal node, otherwise one child per valid column. |
| TreeInterface.FindRandomChild | alphaconnect4/interfaces/mcts_interface.py:38-44 | None exactly on a terminal node, otherwise one of the children. |
| TreeInterface.Reward | alphaconnect4/interfaces/mcts_interface.py:61 | The reward is 0.5 or 0. |
| TreeInterface.RewardIsTie | alphaconnect4/interfaces/mcts_interface.py:61 | On a board whose pieces rest on one another the reward is 0.5 exactly when the board is full. |
| TreeInterface.ChildrenDiffer | alphaconnect4/interfaces/mcts_interface.py:32-34 | Children of different columns have different boards and different last moves. |
| TreeInterface.ChildIndex | alphaconnect4/interfaces/mcts_interface.py:32-34 | Under any end test, every child is the child of some valid column, and a node the end test stops has no child. |
| TreeInterface.ChildrenAreSiblings | alphaconnect4/interfaces/mcts_interface.py:26-36 | Under any end test, the children differ pairwise in identity and in last move, and their last moves are columns. |
| TreeInterface.TerminalIffNoChildren | alphaconnect4/interfaces/mcts_interface.py:23-36 | Under an end test that holds on every full board, a node is finished exactly when it has no children. |
| TreeInterface.ChildrenFillACell | alphaconnect4/interfaces/mcts_interface.py:32-34 | Under any end test, every child has fewer empty cells than its parent. |
| TreeInterface.GameContract | alphaconnect4/engines/mcts.py:166-169 | The adapter meets the searcher's node contract, its end test holding on every full board. |
| TreeInterface.AdapterContract | alphaconnect4/engines/mcts.py:149-184 | Any of the three adapters, given by its end test and reward, meets the searcher's node contract when its end test holds on every full board. |
| TreeInterface.IdentityIgnoresTurn | alphaconnect4/interfaces/mcts_interface.py:63-67 | The two nodes over one unfinished board, with turn 0 and turn 1, are distinct but have the same identity, so the engine keeps one visit count, reward and child set for both. No child of one has the identity of a child of the other, so the child set recorded under that identity is wrong for one of them. |
| LegacyTreeInterface.TerminalAgrees | engines/mcts_interface.py:11-12 | On boards whose pieces rest on one another, "no valid column" and "full board" give the same end test. |
| LegacyTreeInterface.FindChildren | engines/mcts_interface.py:14-26 | Empty when terminal, otherwise one copied child per valid column. |
| LegacyTreeInterface.FindRandomChild | engines/mcts_interface.py:28-36 | None exactly when terminal, otherwise a child. |
| LegacyTreeInterface.FindHeuristicChild | engines/mcts_interface.py:38-46 | None exactly when terminal. Otherwise a fresh node with no last move (`last_move` is None after the constructor) over the board and turn of a child that no other child beats on `score_position(child.turn + 1)`. |
| LegacyTreeInterface.Reward | engines/mcts_interface.py:48-60 | Raises on a non-terminal node, and on a board where the player to move already has a four. |
| LegacyTreeInterface.RewardOnTerminal | engines/mcts_interface.py:55-58 | On a finished reachable board the reward never raises. It is 0 exactly when the player who just moved has a four, and 0.5 exactly on a full board with no four. |
| LegacyTreeInterface.RootReachable | engines/mcts_interface.py:52-54 | The opening board is not one the reward refuses. |
| LegacyTreeInterface.ChildReachable | engines/mcts_interface.py:52-54 | No child of a reachable board gives the player to move a four. |
| LegacyTreeInterface.GameContract | engines/mcts_interface.py:62-66 | A full board has no playable column, so the legacy end test holds there, and the adapter meets the searcher's node contract. |
| BoardTreeInterface.Root | alphaconnect4/interfaces/connect4/connect4_mcts_interface.py:7-10 | A new node holds the board and turn, and its identity is the board. |
| BoardTreeInterface.CreateChild | alphaconnect4/interfaces/connect4/connect4_mcts_interface.py:12-16 | A copy gets `turn + 1` at the action's cell and nothing else changes. It records the column and flips the turn. |
| BoardTreeInterface.ChildList | alphaconnect4/interfaces/connect4/connect4_mcts_interface.py:30-31 | One child per valid action, equal to the other adapter's child of that column. |
| BoardTreeInterface.FindChildren | alphaconnect4/interfaces/connect4/connect4_mcts_interface.py:24-33 | Empty when terminal, otherwise one child per valid action. |
| BoardTreeInterface.FindRandomChildAsWritten | alphaconnect4/interfaces/connect4/connect4_mcts_interface.py:35-40 | As written: Ok(None) exactly on a terminal node, and an error otherwise. |
| BoardTreeInterface.FindRandomChildAlwaysFails | alphaconnect4/interfaces/connect4/connect4_mcts_interface.py:39-40 | On every unfinished node whose pieces rest on one another the call raises TypeError. |
| BoardTreeInterface.OpeningRandomChildFails | alphaconnect4/interfaces/connect4/connect4_mcts_interface.py:39-40 | The opening position is unfinished, and the call raises TypeError on it. |
| BoardTreeInterface.FindRandomChild | alphaconnect4/interfaces/connect4/connect4_mcts_interface.py:35-40 | Corrected: None exactly when terminal, otherwise one of the children. |
| BoardTreeInterface.Reward | alphaconnect4/interfaces/connect4/connect4_mcts_interface.py:42-43 | The reward is 0.5 or 0. |
| BoardTreeInterface.RewardIsTie | alphaconnect4/interfaces/connect4/connect4_mcts_interface.py:42-43 | 0.5 exactly on a full board. A finished board that is not full is a win of the player who just moved, and is worth 0. |
| BoardTreeInterface.GameContract | alphaconnect4/interfaces/connect4/connect4_mcts_interface.py:45-49 | The adapter's end test includes the tie of a full board, so it meets the searcher's node contract. |
| MctsAgent.ActionIndices | alphaconnect4/interfaces/connect4/connect4_board.py:18 | One action per column, action a being column a. |
| MctsAgent.PolicyRowByColumn | alphaconnect4/agents/mcts_agent.py:37-38 | The policy row has one entry per action: the child's policy for a played column, 0 otherwise. |
| MctsAgent.SwapColours | alphaconnect4/agents/mcts_agent.py:40-45 | Empty cells stay empty. |
| MctsAgent.SwapColoursInvolution | alphaconnect4/agents/mcts_agent.py:43-45 | Swapping twice gives the board back, and the number of empty cells is unchanged. Both masks come from the untouched board. |
| MctsAgent.SampleBoardMoverIsOne | alphaconnect4/agents/mcts_agent.py:42-45 | In the sample board, the pieces marked 1 are exactly the mover's pieces. |
| MctsAgent.Rollouts | alphaconnect4/agents/mcts_agent.py:62 | The rollout count is at most the clock's and at most the cap, and is one of them or 0. |
| MctsAgent.MCTSAgent.constructor | alphaconnect4/agents/mcts_agent.py:16-34 | The cap defaults to `int(simulation_time * 10000)`. The agent trains exactly when it has a training path, and never shows a progress bar while training. |
| MctsAgent.MCTSAgent.SaveState | alphaconnect4/agents/mcts_agent.py:36-48 | One policy row and one sample board are appended, keeping the two lists the same length. An unexpanded node raises KeyError and appends nothing. |
| MctsAgent.MCTSAgent.EstimateConfidence | alphaconnect4/agents/mcts_agent.py:50-53 | The confidence is the score of the child `choose` picks: a most-visited child when expanded, minus infinity for None. |
| MctsAgent.MCTSAgent.RunRollouts | alphaconnect4/agents/mcts_agent.py:58-67 | The node gains exactly as many visits as rollouts the clock and cap allow, and the backlog is emptied. |
| MctsAgent.MCTSAgent.ChooseMove | alphaconnect4/agents/mcts_agent.py:72-75 | Except when training with fewer than 10 pieces, an expanded node answers a most-visited recorded child exactly when it has children, and ValueError otherwise. When sampling, an expanded node answers a visited child. An unexpanded node falls back to a random child, None exactly when terminal. A returned child's last move is a column 0 .. 6. |
| MctsAgent.MCTSAgent.ChildColumn | alphaconnect4/agents/mcts_agent.py:78 | The chosen child's last move is a column. |
| MctsAgent.MCTSAgent.Move | alphaconnect4/agents/mcts_agent.py:55-78 | The node gains exactly the allowed number of rollout visits, and the backlog ends empty. The choice is stochastic exactly when training with fewer than 10 pieces, and a sample is added only when training. The answer is the last move of the picked child, a recorded child (or a child of the node when it was never expanded). It is a most-visited child when not sampling, and a visited one when sampling. The stored confidence is the score of the child a second `choose` picks (minus infinity for None). An error of the choice leaves the stored confidence as it was. |
| MctsAgent.MCTSAgent.Answer | alphaconnect4/agents/mcts_agent.py:72-78 | The choice comes first; its error leaves the confidence unchanged. Then the confidence is stored as the score of `choose`'s most-visited child, and the answer is the picked child's last move. A missing child raises AttributeError only after the confidence is stored. |
| TrainingScript.FullColumnsBelow | neural_evaluator/training_script.py:11-13 | The full columns, ascending, and all of them. |
| TrainingScript.FullColumnIff | neural_evaluator/training_script.py:12 | A column is reported exactly when none of its cells is 0. On a settled board this is exactly when it is not a valid move. |
| TrainingScript.Insert | neural_evaluator/training_script.py:21 | `list.insert` adds one entry. |
| TrainingScript.RemoveInsert | neural_evaluator/training_script.py:21 | Removing what was inserted gives the list back. |
| TrainingScript.Pad | neural_evaluator/training_script.py:20-21 | The padded policy is longer by the number of full columns. |
| TrainingScript.UnpadPad | neural_evaluator/training_script.py:19-21 | Taking the inserted zeros out again gives the stored policy back, so the original entries keep their order. |
| TrainingScript.PadZeros | neural_evaluator/training_script.py:20-21 | With ascending indices, every full-column index holds 0 after padding. |
| TrainingScript.PadPolicy | neural_evaluator/training_script.py:19-21 | The loop inserts a 0 at each full column of a copy, in order. |
| TrainingScript.NormalizePolicies | neural_evaluator/training_script.py:16-24 | One padded row per (board, policy) pair, in order, as many as the shorter list. |
| TrainingScript.NormalizedPolicyShape | neural_evaluator/training_script.py:16-24 | A policy with one entry per open column comes out with seven entries, 0 at every full column, and the stored entries recoverable. |
| FlaskBoard.WordLength | api/run_flask.py:33 | A token runs to the first whitespace. |
| FlaskBoard.Words | api/run_flask.py:33 | The tokens are nonempty and hold no whitespace. |
| FlaskBoard.ParseInt | api/run_flask.py:33 | A token is an integer exactly when it is digits, optionally after a minus sign. |
| FlaskBoard.ParseInts | api/run_flask.py:33 | The leading integer tokens, each parsed unchanged, stopping at the first that is not one. |
| FlaskBoard.BoardFromString | api/run_flask.py:31-34 | ValueError exactly when the token count is not 42. Otherwise token k lands at row k div 7, column k mod 7. |
| FlaskBoard.BoardRoundTrip | api/run_flask.py:32-34 | A board of single-digit cells written out as a request reads back as the same board. |
| FlaskBoard.WrongCountRefused | api/run_flask.py:34 | Any other number of tokens is refused. |
| FlaskBoard.SampleRequestReads | tests/test_api/test_run_flask_command.py:35-37 | The request of 36 zeros and `1 2 1 1 2 2` reads as a 6 x 7 board. |

## Left out

- Randomness: `random.choice` and `random.choices` are nondeterministic choices. Every proved property holds for every choice, and no distribution is modelled.
- Mcts.MCTS.ChooseStochastic: does not model the sampling weights `visit_count ** (1 / temperature)` or the legacy `score` weights as probabilities. It models which outcomes are possible: a child of positive weight, never one of weight 0. Python's result for negative weights is unspecified; the model treats a child of negative weight as never drawn.
- Mcts.MCTS.UctSelect: `math.log` and `math.sqrt` are parameters of the searcher, because they are floating point. Only the shape of each score and the argmax are modelled.
- Floating point: rewards, q values, priors and policies are `real`. Rounding, NaN and the float `-inf` are not modelled, and the score's minus infinity is a separate `NegInf` value.
- The network: `neural_interface.score` is an opaque function giving a value and a policy. For `NeuralMCTS` it is assumed to give one prior per action.
- engines/mcts.py, engines/minimax_engine.py and the constants modules are not part of this model. The legacy searcher is taken to extend the searcher of alphaconnect4/engines/mcts.py, and `find_heuristic_child` to use the shared window heuristic.
- alphaconnect4/interfaces/board.py defines none of the board methods its subclasses call. The adapter of alphaconnect4/interfaces/mcts_interface.py and the current minimax engine use the methods of gameplay/board.py instead, with a `tie()` that means "no empty cell".
- MctsAgent.PolicyRow: `save_state` reads `board.action_indices` (alphaconnect4/agents/mcts_agent.py:38), which neither alphaconnect4/interfaces/board.py nor gameplay/board.py defines, so on the agent's node the attribute lookup would raise AttributeError. The model takes the indices of `Connect4Board` (alphaconnect4/interfaces/connect4/connect4_board.py:18), the columns 0 .. 6, as `MctsAgent.ActionIndices`.
- MctsAgent.MCTSAgent.Move: requires the board's pieces to rest on one another and the turn to be 0 or 1. Every position play reaches is one of these (with more besides), and the node contract is proved for all of them.
- MctsAgent.MCTSAgent.Move: the wall clock (`time.time`) is the parameter `clockRollouts`. The progress bar (tqdm) is left out.
- MctsAgent.MCTSAgent.constructor: `kill_agent` (alphaconnect4/agents/mcts_agent.py:80-91) is file I/O with numpy and is left out.
- LegacyTreeInterface.GameReward: the searcher reads the checked reward only on finished reachable boards, where it never raises (RewardOnTerminal). The error case maps to 0 so that the game record has a total reward.
- LegacyTreeInterface.ChildReachable: the reward's "unreachable board" case is excluded by the `Reachable` predicate, proved for the opening board and preserved by every child. Positions are not a subset type of reachable boards.
- Minimax.Search: requires alpha < beta, as every call the engines make has. The starting `column = random.choice(...)` is not modelled as a separate value, because the proof shows the first child always replaces it.
- Minimax.ChildDropsOnePiece: the legacy engine calls a three-argument `drop_piece` (minimax/minimax_engine.py:88, 107) that gameplay/board.py does not define. It is modelled as placing the given piece on a fresh engine of turn 0.
- Minimax.Search: the `print(depth)` of the legacy engine is left out.
- FlaskBoard.ParseInts: models `np.fromstring(..., sep=" ")` on space, tab and newline separators, decimal digits and a leading minus. numpy's handling of other text (a plus sign, float syntax, trailing garbage warnings) is not modelled. Reading stops at the first token that is not an integer.
- FlaskBoard.BoardFromString: the rest of api/run_flask.py is HTTP serving and logging, and is left out.
- Node identity: `hash(board.tobytes())` is modelled as the board contents, so hash collisions are not modelled.
- The depth of the minimax search is a `nat`. Negative depths, which no caller passes, are not modelled.
- Integer widths: boards are numpy `uint8` arrays. The cells written are 0, 1, 2 and 0..16, so no wrap-around occurs, and cells are `int`.
- Neural network training, the game loops and user interfaces, the Elo rating, the tournament script and the duplicate agents are outside this model.

## Findings

| source | as written | input that shows it | evidently intended | confidence | as-written member | corrected member |
|---|---|---|---|---|---|---|
| alphaconnect4/interfaces/quarto/quarto_board.py:45-53 | `return False` sits inside `for channel in range(4)`, so only attribute 0 (bit 0) is ever compared | a bottom row of pieces 2, 3, 6, 7 (all with bit 1 set, bit 0 mixed) and the rest empty: won on attribute 1, reported as not won | `return False` after the channel loop, so that all four attributes are compared | high, not executed | QuartoBoard.WinningMoveMissesBitOne | QuartoBoard.QuartoBoard.WinningMoveAllChannels |
| alphaconnect4/interfaces/connect4/connect4_mcts_interface.py:39-40 | `self.create_child(row, col)` passes two arguments to the one-argument `create_child(action)`, which raises TypeError | the opening position (empty board, turn 0) | `self.create_child((row, col))`: a random child of the unfinished node | high, not executed | BoardTreeInterface.OpeningRandomChildFails | BoardTreeInterface.FindRandomChild |
