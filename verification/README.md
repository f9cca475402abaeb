# Connect-4 agents and training loop, modelled in Dafny

This project models the decision core of a Connect-4 tournament system:

- **The minimax agent** (`UCB1Agent` in `tournament/connect4/policy.py`).
  - Board primitives: playable columns, the gravity drop, four-in-a-row detection, the "does this move win at once" oracle and the window-scoring heuristic.
  - `act`: infers whose turn it is from the piece counts, takes an immediate win, blocks an immediate loss, filters unsafe columns, ranks the rest with fail-soft alpha-beta and breaks ties towards the centre.
- **The training environment** (`TrainingEnvironment` in `tournament/train_agent.py`).
  - Its own drop (`make_move`) and winner check (`check_winner`).
  - The two-agent game loop `play_game`.
  - The win/loss/draw label an episode gets.
- **The tabular Q-learning agent** (`QLearningAgent` in `tournament/learning/q_learning_agent.py`): state keys, the table read with default 0, greedy choice, the temporal-difference update and epsilon decay.

Boards are immutable `seq<seq<int>>` values, 6 rows by 7 columns, with row 0 at the top. Cells are EMPTY 0, P1 -1 and P2 1. Q-values are `real`, an exact idealisation of the Python floats.

Modules follow the program's structure:

| module | file | models |
|---|---|---|
| `Options` | options.dfy | the `Option` result type |
| `Grid` | grid.dfy | the shared grid: cell counts, gravity, the geometric meaning of "four in a row" (`HasRun`) |
| `Policy` | policy.dfy | `_valid_cols`, `_drop`, `_has_four`, `_is_winning_move`, the turn rule, `_eval` and `wscore` |
| `Search` | search.dfy | `_max_value` and `_min_value`, plus the plain minimax value they are proved to bound |
| `Agent` | agent.dfy | `act` |
| `Training` | training.dfy | `make_move`, `check_winner`, `play_game`, the episode label |
| `QLearning` | qlearning.dfy | `QLearningAgent` |

The main results:

- **The two win checks agree.** The search agent's `_has_four` scans 69 windows. The training loop's `check_winner` scans another 69 lines. Both are proved equivalent to one geometric definition: four equal cells along any of the eight compass directions.
- **The two drops agree.** `make_move` and `_drop` are the same function.
- **Alpha-beta is fail-soft.** A result strictly inside the window (alpha, beta) equals the unpruned minimax value. A result at or below alpha bounds that value from above. A result at or above beta bounds it from below.
- **The game loop keeps its rules.** `play_game` is a loop with an invariant. It always applies a playable column and starts with piece 1 on an empty board. Pieces alternate strictly, and the game ends with the last mover's four in a row or a full top row, after at most 42 moves.
- **The Q-table behaves as promised.** State keys round-trip. An update changes exactly one entry. The greedy choice is numpy's first maximum. Epsilon decay stops at its floor.

## Model

| member | source | states |
|---|---|---|
| Policy.ValidCols | tournament/connect4/policy.py:106-107 | the result holds exactly the columns whose top cell is EMPTY, in strictly ascending order |
| Policy.Drop | tournament/connect4/policy.py:110-116 | the piece lands in the lowest EMPTY cell of the column and no other cell changes; a full column leaves the board as it was, with no error; a drop into a playable column uses up exactly one free cell |
| Policy.HasFourIffRun | tournament/connect4/policy.py:126-143 | the horizontal, vertical, down-right and down-left window scan finds four exactly when the player has four equal cells in a line in any of the eight directions |
| Policy.HasFourIsRun | tournament/connect4/policy.py:126-143 | a four found by the window scan is four equal cells along one of the eight compass directions |
| Policy.RunIsHasFour | tournament/connect4/policy.py:126-143 | four equal cells along any compass direction, including the four directions the scan does not walk, are found by the window scan |
| Policy.InWindows | tournament/connect4/policy.py:126-143 | every on-grid line in the four scanned directions is one of the scanned windows |
| Policy.IsWinningMoveIff | tournament/connect4/policy.py:119-123 | a column wins at once exactly when it is playable and dropping the piece there gives the player four in a line in some direction |
| Policy.PlayerToMove | tournament/connect4/policy.py:29-30 | the player to move is a player, and it is P1 (-1) exactly when both players have placed equally many pieces |
| Policy.PlayerToMoveAlternates | tournament/connect4/policy.py:29-30 | on a board where P1 has placed as many pieces as P2 or one more, the player the rule picks dropping into a playable column keeps that balance and hands the move to the other player |
| Policy.WScore | tournament/connect4/policy.py:156-172 | a window both players occupy scores 0; a score of 100, 10, 1, -80 or -8 occurs exactly for own 3+1, 2+2 or 1+3 empty and opponent 3+1 or 2+2 empty; nothing else is possible |
| Policy.EvalBound | tournament/connect4/policy.py:146-187 | the heuristic lies between -3*6 - 80*69 and 3*6 + 100*69: at most six centre pieces, and 69 windows each scoring between -80 and 100 |
| Search.LeafValues | tournament/connect4/policy.py:70-103 | both searches score my four as 10000 + d and the opponent's as -10000 - d, checking these before the depth; without a four, depth 0 or no playable column yields the heuristic |
| Search.FourOutranksHeuristic | tournament/connect4/policy.py:70-94 | at any non-negative depth both searches score a board where the player has four above the heuristic of every board, and a board where only the opponent has four below it |
| Search.MaxValueFailSoft | tournament/connect4/policy.py:70-85 | the max-node search with a non-empty window is a fail-soft answer for the exact minimax value: exact inside the window, an upper bound at or below alpha, a lower bound at or above beta |
| Search.MinValueFailSoft | tournament/connect4/policy.py:88-103 | the same fail-soft guarantee for the min-node search |
| Search.MaxLoopFailSoft | tournament/connect4/policy.py:78-85 | the max loop, with its beta cut-off and rising alpha, is a fail-soft answer for the best value over the remaining columns |
| Search.MinLoopFailSoft | tournament/connect4/policy.py:96-103 | the min loop, with its alpha cut-off and falling beta, is a fail-soft answer for the worst value over the remaining replies |
| Agent.FirstWinning | tournament/connect4/policy.py:33-35 | the scan finds nothing exactly when no listed column wins at once; otherwise it finds a winning column with no winning column listed before it |
| Agent.LowestWinning | tournament/connect4/policy.py:32-40 | scanning the playable columns finds the lowest winning column, and finds nothing exactly when there is none |
| Agent.SafeCols | tournament/connect4/policy.py:43-47 | the safe columns are exactly the listed columns after which the opponent has no immediately winning reply, in their original order |
| Agent.Candidates | tournament/connect4/policy.py:43-48 | the candidates are exactly the safe playable columns when one exists, and all playable columns otherwise; they are never empty while a column is playable |
| Agent.RootLoopSound | tournament/connect4/policy.py:50-62 | the root loop's best score is the exact best minimax value over the candidates; every kept column is worth at most that, the first exactly that, and every candidate worth exactly that is kept |
| Agent.RootBetter | tournament/connect4/policy.py:54-60 | when the next candidate scores above the best so far, the loop run from there still returns the exact best value over the candidates, keeps only columns worth at most it, puts one worth exactly it first, and keeps every candidate worth exactly it |
| Agent.RootTie | tournament/connect4/policy.py:54-62 | a candidate scoring exactly the best so far is appended to the kept columns, and the loop's result stays exact |
| Agent.RootWorse | tournament/connect4/policy.py:54-56 | a candidate scoring below the best so far is dropped, and the loop's result stays exact |
| Agent.TieResult | tournament/connect4/policy.py:61-62 | appending a tied candidate loses nothing: the result for the remaining candidates is also the result for the whole list |
| Agent.RootLoopAscending | tournament/connect4/policy.py:52-62 | the root loop keeps its best columns in ascending order when it walks ascending candidates |
| Agent.ClosestToCentre | tournament/connect4/policy.py:64-67 | the tie-break picks a listed column at least as near the centre as every other, and the first one of those, as a stable sort by distance does |
| Agent.ClosestLowest | tournament/connect4/policy.py:64-67 | on an ascending list the tie-break picks the lowest of the columns equally near the centre, because the sort by distance is stable |
| Agent.Act | tournament/connect4/policy.py:19-67 | with no playable column the move is 0; otherwise it is a playable column |
| Agent.SearchMove | tournament/connect4/policy.py:50-67 | the searched move is one of the candidates |
| Agent.SearchMoveNearOptimal | tournament/connect4/policy.py:50-67 | the searched move is worth at most the best minimax value over the candidates, some candidate reaches that value, the move is no farther from the centre than any candidate that reaches it, and among those at its distance it is the lowest column |
| Agent.ActTakesWin | tournament/connect4/policy.py:32-35 | when the player to move can win at once, act plays the lowest winning column |
| Agent.ActBlocks | tournament/connect4/policy.py:37-40 | when the player to move cannot win at once but the opponent could, act plays the opponent's lowest winning column |
| Agent.ActSearches | tournament/connect4/policy.py:42-67 | with neither a win nor a block available, act plays the searched move |
| Training.MakeMoveIsDrop | tournament/train_agent.py:105-112 | make_move equals the search agent's drop on every board, column and piece: lowest EMPTY cell, nothing else changed, a full column unchanged |
| Training.ScanLines | tournament/train_agent.py:114-143 | the scan answers 0 exactly when no scanned line starts with a piece repeated in all four cells; a nonzero answer fills one of the lines |
| Training.CheckWinner | tournament/train_agent.py:114-143 | a nonzero answer is a player with four in a row, and the answer is 0 exactly when nobody has four in a row |
| Training.CheckWinnerAgreesWithHasFour | tournament/train_agent.py:114-143 | a nonzero answer of check_winner is a player the agent's _has_four sees four for, and 0 means _has_four holds for neither player |
| Training.OpenColsAgree | tournament/train_agent.py:97 | the loop's list of open columns is the agent's valid-column list: exactly the playable columns, empty exactly when the top row is full |
| Training.BareStart | tournament/train_agent.py:49-51 | the empty starting board has no four in a row, an open column and 42 free cells |
| Training.Applied | tournament/train_agent.py:66-75 | the applied column is always playable: the agent's own column when it is playable, otherwise a column of the valid list chosen by the random draw (also when the agent raised) |
| Training.RecordedMembers | tournament/train_agent.py:77-83 | the history holds exactly the turns played by an agent that keeps training metrics |
| Training.WinnerIsMover | tournament/train_agent.py:86-94 | after a move on a board without four in a row, a nonzero winner is the piece just placed and has four; 0 means nobody has four |
| Training.ExtendTrace | tournament/train_agent.py:54-83 | appending a turn that follows the last one under the loop's rules gives a valid game record, whose history gains the turn exactly when its agent keeps metrics |
| Training.RoundPlayed | tournament/train_agent.py:54-94 | after one more turn the record is a valid game whose last board is the new board, and a nonzero winner is the last mover with four in a row |
| Training.RoundPlaying | tournament/train_agent.py:96-103 | when nobody has won and a column is open, the loop state carries over to the other piece with one free cell fewer |
| Training.Round | tournament/train_agent.py:54-103 | one pass of the loop fills one more cell and keeps the loop invariant whenever the game goes on |
| Training.PlayGame | tournament/train_agent.py:46-103 | between 1 and 42 turns are played, the first by piece 1 on the empty board; every turn applies the rules and continues from the previous board; a nonzero winner is the last mover with four in a row, and 0 means nobody has four and the top row is full |
| Training.TurnRulesAt | tournament/train_agent.py:58-75 | turn i of a game is played by the agent of its piece on move number i + 1, with the column that agent's reply or the random substitute gives |
| Training.LinkedAt | tournament/train_agent.py:86-103 | every turn after the first starts from the board the previous turn left, with the other piece |
| Training.Alternates | tournament/train_agent.py:50-103 | piece 1 moves on even turns and piece -1 on odd turns |
| Training.Classify | tournament/train_agent.py:214-219 | the label is win exactly when the winner is the learner's piece, loss exactly when it is the opponent's, draw otherwise |
| Training.ClassifyGame | tournament/train_agent.py:214-219 | for a finished game, win means the learner moved last and has four in a row, loss means the opponent did, draw means nobody has four and the top row is full |
| QLearning.NewAgent | tournament/learning/q_learning_agent.py:9-16 | a fresh agent has an empty table and the given parameters, except that an agent not in training mode starts with epsilon 0 |
| QLearning.EvaluationIsGreedy | tournament/learning/q_learning_agent.py:9-26 | an agent built for evaluation plays the greedy column for every draw in [0, 1) and every random pick |
| QLearning.StateKey | tournament/learning/q_learning_agent.py:18-19 | the key has 42 entries and holds cell (r, c) at position 7r + c |
| QLearning.KeyRoundTrip | tournament/learning/q_learning_agent.py:18-19 | unflattening a board's key gives back the board |
| QLearning.UnflattenRoundTrip | tournament/learning/q_learning_agent.py:18-19 | every 42-entry key is the key of the board it unflattens to |
| QLearning.StateKeyInjective | tournament/learning/q_learning_agent.py:18-19 | two boards share a key exactly when they are equal |
| QLearning.MaxValue | tournament/learning/q_learning_agent.py:39 | the maximum over a non-empty column list is at least every listed column's value and is the value of one of them |
| QLearning.NextMax | tournament/learning/q_learning_agent.py:39 | the bootstrap term is 0 for an empty list; otherwise it bounds every listed value and is attained by a listed column |
| QLearning.ArgMax | tournament/learning/q_learning_agent.py:26 | the scan returns the first position of the largest entry |
| QLearning.ArgMaxIsFirstMax | tournament/learning/q_learning_agent.py:26 | the scan's position is the only position that is a first maximum |
| QLearning.Greedy | tournament/learning/q_learning_agent.py:25-26 | no column exactly when the list is empty; otherwise the column at the first position of maximal value |
| QLearning.GreedyIsBest | tournament/learning/q_learning_agent.py:25-26 | the greedy column is listed, its value equals the best value, and no listed column is worth more |
| QLearning.GreedyFirstOfTies | tournament/learning/q_learning_agent.py:25-26 | among listed columns of best value the greedy choice comes first |
| QLearning.SelectAction | tournament/learning/q_learning_agent.py:28-33 | no column exactly when the list is empty, else a listed column; without exploration, or with a draw at or above epsilon, the greedy column; otherwise the random pick |
| QLearning.ChooseAction | tournament/learning/q_learning_agent.py:21-26 | the same choice keyed by the board: a listed column, greedy whenever the draw is at or above epsilon |
| QLearning.Update | tournament/learning/q_learning_agent.py:35-41 | the table gains at most the entry for (key of the board, action); every other entry keeps its value; that entry becomes the old value (0 when absent) moved a fraction alpha towards reward + gamma * next_max; nothing but the table changes |
| QLearning.UpdateReads | tournament/learning/q_learning_agent.py:35-41 | reading any other (key, column) after an update gives what it gave before |
| QLearning.BlendMovesToward | tournament/learning/q_learning_agent.py:40 | with 0 <= alpha <= 1 the new value lies between the old value and the target; alpha 1 lands on the target and alpha 0 keeps the old value |
| QLearning.RepeatStaysBetween | tournament/learning/q_learning_agent.py:40 | repeated updates towards a fixed target never overshoot it |
| QLearning.DecayEpsilon | tournament/learning/q_learning_agent.py:43-45 | epsilon is multiplied by the decay factor exactly when it is above the floor, and the agent is unchanged otherwise; nothing but epsilon changes |
| QLearning.DecayBounds | tournament/learning/q_learning_agent.py:43-45 | with a decay factor in (0, 1], repeated decays never raise epsilon, keep it non-negative, and never take it below the smaller of its start and one decay step under the floor |
| QLearning.DecayStopsAtFloor | tournament/learning/q_learning_agent.py:43-45 | once epsilon is at or below the floor, further decays change nothing |

## Left out

- `ConnectState`, its `valid_actions`, MCTS, `QPolicy` and the tournament engine are not part of this model. The training loop's list of valid actions is modelled as the columns with an EMPTY top cell. That is the rule `act` itself falls back to at `tournament/connect4/policy.py:24`.
- Randomness is an input. `np.random.rand()` is a real `draw`. `random.choice(valid)` is `valid[pick % |valid|]` for a natural number `pick`. In the game loop, `pick` is a function of the move number.
- An agent in the game loop is a function from (move number, board) to a reply, either a column or a raised exception. Whatever state or randomness the agent keeps is folded into that function.
- Output is left out: printing, the `verbose` messages, the Q-table's pickle `save`/`load`, the metrics files and the plots.
- The reward shaping at `tournament/train_agent.py:191-202` is left out. It is float arithmetic on top of the episode label, and the step penalty is -0.1.
- History entries are modelled as turn records (board before the move, column, piece) rather than Python dictionaries.
- `PlayGame` also returns the list of every turn played. This output exists only to state the loop's properties.
- `make_move` is modelled for columns 0..6 only. The loop only ever passes it a playable column.
- The two turn conventions are not reconciled. The search agent gives the move to P1 (-1) on equal piece counts. The training loop starts with piece 1. No lemma claims they agree.
- Agent.SearchMoveNearOptimal: it proves that the move's exact value is at most the best, not equal to it. The root loop raises alpha to the best score found so far. A later column whose fail-soft score ties that alpha may only be bounded by it from above, so it can join the tied list while being worth less.
- Two behaviours are kept exactly as the program has them, though a reader might expect otherwise:
  - `_drop` into a full column returns the board unchanged and raises no error (`tournament/connect4/policy.py:116`); `Policy.Drop` does the same.
  - Ties in the root loop compare the fail-soft scores, not the exact values (see Agent.SearchMoveNearOptimal above).
- The epsilon-greedy exploration branch is modelled only as "returns the random pick". Its distribution is not modelled.
