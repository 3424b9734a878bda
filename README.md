# Tic-tac-toe AlphaZero: a verified model of the game, the searches and the evaluation loops

This project models the core of a small AlphaZero-style tic-tac-toe system in Dafny:

- the rules of the game;
- two exact game-tree searches: minimax and alpha-beta;
- the network-guided Monte Carlo tree search (PV-MCTS) that picks moves during self-play;
- the self-play loop that turns games into labelled training records;
- the arena loops that score one move selector against another, with seats swapped between games, and decide whether a new network replaces the best one.

The neural network, the PUCT child choice, the Boltzmann reweighting and every random draw are parameters of the model: functions the model receives and does not look inside.

Modules, one per source file:

- `Scores` (scores.dfy) holds the "running best with a strict `>`" scan shared by every search wrapper, and a real-valued sum. The scan's -inf start is the sentinel -2, since game values are -1, 0 and 1.
- `Game` (game.dfy) models game.py.
  - A `State` is two 9-cell 0/1 lists, `pieces` for the side to move and `enemyPieces` for the other side.
  - `Next` plays a move and swaps the two lists.
  - Each loop method is proved against a reference function: `PieceCount` against `Count`, `IsComp` against `LineFrom`, `IsLose` against `Lost` (the eight lines written out), `LegalActions` against `Legal`, `MiniMax` and `AlphaBeta` against the exact minimax value `Value`, and `MiniMaxAction` and `AlphaBetaAction` against `OptimalAction`.
  - `IsGame` describes a game from the empty board.
- `PvMcts` (pv_mcts.dfy) models pv_mcts.py.
  - The search tree is an explicit `Node` value. `Evaluate` specifies one simulation, and the recursive method `Simulate` performs it. `SearchTree` is the tree after k simulations from a fresh root; `Search` builds it for k = PV_EVALUATE_COUNT, and `PvMctsScores` reads its root's visit counts.
  - `Valid` is the tree invariant that every simulation keeps: visit counts add up, values are backed up negated, and children follow the legal moves and the network's priors.
- `SelfPlay` (self_play.dfy) models self_play.py. Each record's policy is the scatter of `SearchScores`, the distribution `PvMctsScores` returns for that position at SP_TEMPERATURE, and each move is the chooser's draw from it.
- `Arena` (arena.dfy) holds what evaluate_network.py, evaluate_best_player.py and test1.py share: `first_player_point` with the draw value as a parameter, `play`, and the seat-swapped accumulation loop.
- `EvaluateNetwork`, `EvaluateBestPlayer` and `Test1` (evaluate_network.dfy, evaluate_best_player.dfy, test1.dfy) hold each file's constants, entry points and lemmas.

Parameters standing for what the model does not look inside:

- The network is a function `State -> Prediction` whose raw policy has nine entries.
- The PUCT rule is a function from a node's children to one of their indices.
- A move selector of the arena is a function of the game number and the position. It must answer with an empty cell. The game number stands for the random state that the random, MCTS and sampling selectors draw on.
- Self-play's `np.random.choice` is a function of the game number, the position and the search distribution, and it must answer with an empty cell.
- `boltzmann` is a function of the visit counts and the temperature.

Where the code behaves in a way a reader might not expect, the model follows the code:

- `is_draw` only counts marks. A full board that is also lost counts as drawn; `is_done` and the searches test `is_lose` first.
- `predict` divides the legal policy entries by their sum only when the sum is non-zero. A zero vector stays zero, with no uniform fallback.
- The value labelling runs forward from record 0, which gets the first player's value.
- self_play.py imports `DN_OUTPUT_SIZE`, but dual_network.py:11 defines `DN_OUTPUT_SHAPE = 9`. The policy vector is modelled with nine slots (`SelfPlay.OutputSize`).

## Model

| member | source | states |
|---|---|---|
| Game.State.Next | game.py:44-47 | through NextEmptyCells, NextShrinks and NextBalanced: the mover's cell a becomes marked, the empty cells are the old ones except a, the legal moves shrink by one, and whose turn it is flips |
| Game.State.FirstPlayer | game.py:58-59 | through GameAlternates: along a game from the empty board it holds exactly on even plies |
| Game.State.Lost | game.py:17-33 | through IsLose: the opponent holds one of the three rows, three columns or two diagonals |
| Game.State.Legal | game.py:50-55 | through LegalExactlyEmpty: exactly the cells empty in both lists, in increasing order |
| Game.Count | game.py:9-14 | through PieceCount and CountMark: the number of 1 cells, raised by one by each mark |
| Game.PieceCount | game.py:9-14 | the counting loop returns exactly the number of 1 cells |
| Game.IsComp | game.py:19-25 | the three-step walk returns true iff all three cells (x, y), (x+dx, y+dy), (x+2dx, y+2dy) are on the board and held by the opponent |
| Game.LineFromThree | game.py:19-25 | a three-cell line is held iff its three named cells are on the board and marked |
| Game.IsLose | game.py:17-33 | the loss test returns true iff the opponent holds a row, a column or one of the two diagonals |
| Game.IsDraw | game.py:36-37 | the draw test returns true iff both sides' marks add up to nine, whether or not someone has won |
| Game.IsDone | game.py:40-41 | the end test returns true iff the position is lost or drawn |
| Game.LegalActions | game.py:50-55 | the loop returns the cells empty in both lists, in increasing order |
| Game.Empties | game.py:50-55 | every listed cell is below the bound and empty in both lists |
| Game.EmptiesComplete | game.py:50-55 | every empty cell below the bound is listed, and the list is strictly increasing |
| Game.LegalExactlyEmpty | game.py:50-55 | a cell is legal iff it is empty, and the legal list is strictly increasing |
| Game.NextShrinks | game.py:44-47 | after a legal move the state is still two 9-cell lists and has exactly one legal move fewer |
| Game.NextEmptyCells | game.py:44-47 | after a move onto cell a, the empty cells are the old ones except a, and no cell becomes doubly marked |
| Game.CountMark | game.py:44-47 | marking an empty cell raises the count by exactly one |
| Game.LegalPlusCounts | game.py:9-14 | on a board with no doubly marked cell, legal moves plus both sides' marks is nine |
| Game.DrawnIffNoLegal | game.py:36-37 | on such a board, drawn holds iff there is no legal move |
| Game.InitialBalanced | game.py:5-7 | the empty board is balanced, is the first player's turn, is not finished, and has legal moves 0..8 |
| Game.NextBalanced | game.py:44-47 | a legal move keeps the opponent at most one mark ahead, flips whose turn it is, and adds one mark to the board |
| Game.NotDoneHasMove | game.py:50-55 | an unfinished balanced position has a legal move |
| Game.IsGameStep | game.py:44-47 | a game extends by a legal move from its unfinished last position |
| Game.GameAlternates | game.py:58-59 | along any game from the empty board, the first player moves exactly on even plies, the invariant holds, and ply i has i marks |
| Game.GameLength | game.py:50-55 | a game has at most nine moves |
| Game.Value | game.py:82-96 | a value between the two infinity sentinels; through ValueOnDisjoint it is -1, 0 or 1 on every reachable board, and MiniMax and AlphaBeta compute it |
| Game.ValueOnDisjoint | game.py:82-96 | on every board without doubly marked cells, the minimax value (-1 when lost, checked first, 0 when drawn, else the best negated child value) is -1, 0 or 1, never the -inf sentinel |
| Game.ScoreList | game.py:88-94 | one score per move, each the negated value of the position after it |
| Game.ScoreListPrefix | game.py:90-94 | the scores of a prefix of the moves are the prefix of the scores |
| Game.MiniMax | game.py:82-96 | the recursive loop returns exactly the minimax value |
| Game.FullWindowExact | game.py:141 | with the window (-inf, +inf), a fail-soft result is the exact value |
| Game.AlphaBeta | game.py:117-133 | for alpha < beta the result stays in range and is fail-soft: the exact value when it lies strictly inside the window, at most alpha when the value is at most alpha, at least beta when it is at least beta |
| Game.AlphaBetaStep | game.py:124-131 | in one loop round a cut happens only when the child's true score reaches beta; otherwise the updated alpha is the larger of the initial alpha and the best true score so far |
| Game.OptimalAction | game.py:99-115 | through OptimalActionIsOptimal: a legal move reaching the position's value, the first such in the legal order; both action methods return it |
| Game.OptimalActionIsOptimal | game.py:99-115 | in an unfinished position the chosen move is legal, attains the position's value, and every earlier legal move scores strictly less |
| Game.MiniMaxAction | game.py:99-115 | the loop returns the first legal move with the best negated value, or 0 without legal moves |
| Game.AlphaBetaAction | game.py:135-151 | the loop with full-window alpha-beta returns the same move as MiniMaxAction |
| Scores.BestScore | game.py:89-94 | the running maximum of a scan from -inf is at least every element and at least -inf |
| Scores.BestScoreAtMost | game.py:89-94 | the running maximum is at most any common upper bound |
| Scores.BestScoreWithin | game.py:89-94 | the running maximum of a non-empty list in [lo, hi] stays in [lo, hi] |
| Scores.ArgBest | game.py:101-108 | the strict-`>` scan keeps the first index holding the maximum, or -1 when nothing beats -inf |
| Scores.ArgBestAboveNegInf | pv_mcts.py:108 | a non-empty list above -inf has a first maximum, and it is at least every element |
| PvMcts.Valid | pv_mcts.py:44-83 | the tree invariant, kept by Evaluate and every Simulate call: a finished node holds its terminal value per visit and has no children; an unvisited open node is empty; an expanded node has one child per legal move with the network's prior, n = 1 + the children's n, and w = the network's value minus the children's w |
| PvMcts.LegalPolicies | pv_mcts.py:24-25 | one entry per legal move; with non-zero mass, each entry is its raw value divided by the mass and they sum to 1; with zero mass, the entries are the raw values unchanged |
| PvMcts.SumScale | pv_mcts.py:25 | dividing every entry by d divides the sum by d |
| PvMcts.Predict | pv_mcts.py:14-29 | the policy has one entry per legal move, and the value is the network's value |
| PvMcts.Expand | pv_mcts.py:71-73 | one child per legal move |
| PvMcts.SumsUpdate | pv_mcts.py:78-82 | replacing one child changes the children's totals of n and w by that child's change |
| PvMcts.LeavesValid | pv_mcts.py:71-73 | each fresh child is reached by a legal move and satisfies the tree invariant |
| PvMcts.ExpandedValid | pv_mcts.py:62-74 | the first visit of an open position leaves a valid tree: n = 1 + the children's visits, and w = the network's value minus the children's w |
| PvMcts.BackedUpValid | pv_mcts.py:76-83 | backing up the negated value of a child that gained one visit keeps the tree invariant |
| PvMcts.TerminalValid | pv_mcts.py:53-59 | a finished position visited again has accumulated its terminal value once per visit |
| PvMcts.Evaluate | pv_mcts.py:51-83 | one simulation keeps the tree invariant, keeps the state and the prior, adds one visit, and adds the returned value to w; a finished position returns -1 when lost and 0 otherwise and is never expanded; an open position is expanded afterwards |
| PvMcts.EvaluateExpands | pv_mcts.py:62-74 | the first visit returns the network's value and creates child j for legal move j, with that move's prior and zero w and n |
| PvMcts.EvaluateNegatesChild | pv_mcts.py:76-83 | a visit to an expanded node returns the negation of what the selected child returned, and only that child is replaced |
| PvMcts.ExpandChildren | pv_mcts.py:71-73 | the expansion loop builds exactly the children `Expand` describes |
| PvMcts.VisitTerminal | pv_mcts.py:53-59 | the visit of a finished position gives exactly what Evaluate specifies: -1 when lost, else 0, added to w with one more visit |
| PvMcts.VisitLeaf | pv_mcts.py:62-74 | the first visit of an open position gives exactly what Evaluate specifies: the network's value, and one fresh child per legal move |
| PvMcts.EvaluateBacksUp | pv_mcts.py:76-83 | a visit to an expanded node is the backup of the selected child's outcome: that child replaced, the value negated and added to w, one more visit |
| PvMcts.Simulate | pv_mcts.py:51-83 | the recursive update returns exactly the node and the value `Evaluate` specifies |
| PvMcts.SearchTree | pv_mcts.py:98-103 | after k simulations from a fresh root the tree is valid, at the same position, with k visits, and expanded once visited if the position is open |
| PvMcts.Search | pv_mcts.py:98-103 | the loop builds exactly SearchTree for PV_EVALUATE_COUNT simulations; the root is valid, expanded, has 50 visits and one child per legal move, and the children's visits add up to 49 |
| PvMcts.NodesToScores | pv_mcts.py:32-36 | one score per node, in order, each the node's visit count |
| PvMcts.OneHot | pv_mcts.py:107-110 | a vector as long as the counts, with 1.0 at the first index of the largest count and 0.0 elsewhere |
| PvMcts.OneHotPicksMostVisited | pv_mcts.py:107-110 | such a vector has a 1.0 entry, every entry is 0.0 or 1.0, and a 1.0 sits only at a maximal count with every earlier count strictly smaller |
| PvMcts.PvMctsScores | pv_mcts.py:39-113 | for the tree SearchTree builds from s with PV_EVALUATE_COUNT simulations: at temperature 0, one entry per legal move with the single 1.0 on the most visited root child; otherwise the Boltzmann weighting of the root children's visit counts |
| SelfPlay.FirstPlayerValue | self_play.py:17-20 | the value is -1, 0 or 1, and it is 0 exactly when the position is not lost |
| SelfPlay.FirstPlayerValueIsValue | self_play.py:17-20 | at a finished position it is the exact game value, seen from the first player's side |
| SelfPlay.FirstPlayerValueAndPoint | self_play.py:17-20 | it agrees with the arena's 0/0.5/1 point: point = (value + 1) / 2 |
| SelfPlay.ScatterPolicies | self_play.py:47-49 | nine slots; slot legal[j] holds scores[j] for each pair zip forms; every other slot is 0 |
| SelfPlay.LabelValues | self_play.py:59-62 | same length; record i gets value v·(-1)^i; board and policy of every record unchanged |
| SelfPlay.SelfPlayedStep | self_play.py:38-56 | one loop round appends the record of the current position, and the move, drawn by the chooser, is legal |
| SelfPlay.Play | self_play.py:31-63 | the moves form a legal game from the empty board ending in a finished position; there is one record per ply showing the position before the move and the scatter of the search distribution pv_mcts_scores computes for that position at SP_TEMPERATURE; each move is the chooser's draw from that distribution; the labels alternate from the first player's final value |
| SelfPlay.LabelsAreMoverOutcome | self_play.py:59-62 | each label is the final result for the player who was to move at that record: -1 lost, +1 won, 0 drawn |
| SelfPlay.GameHistoryLabels | self_play.py:59-62 | every record of a game is labelled with -1, 0 or 1, and consecutive labels are opposite |
| SelfPlay.Concat | self_play.py:76 | through ConcatStep and RunSelfPlay: appending a game's records appends them to the joined history |
| SelfPlay.RunSelfPlay | self_play.py:66-87 | SP_GAME_COUNT games; the history is their records joined in order, and each game's records form a labelled game whose policies are the network-guided search's distributions |
| Arena.FirstPlayerPoint | evaluate_best_player.py:12-15 | the point is 0, 1 or the draw value; for a lost position it is 0 when the first player is to move and 1 when the second is; otherwise it is the draw value |
| Arena.FinalState | evaluate_best_player.py:18-36 | the game from a balanced position ends in a balanced finished position |
| Arena.PlayedStep | evaluate_best_player.py:23-33 | one round lets the selector of the side to move play a legal move that shrinks the legal moves |
| Arena.Play | evaluate_best_player.py:18-36 | the selectors play a legal game of at most nine moves, each move by the side to move's selector; the result is the first player's point of where it ends |
| Arena.InitialFinal | evaluate_best_player.py:18-36 | the game from the empty board ends in a balanced finished position |
| Arena.GamePoint | evaluate_best_player.py:43-47 | with a draw value in [0, 1], each game's term is in [0, 1] |
| Arena.GamePointIsPointsOfA | evaluate_best_player.py:43-47 | each term is what the first selector earned: 1 for a win, 0 for a loss, the draw value or its complement for a draw, by seat |
| Arena.TotalPoint | evaluate_best_player.py:41-47 | through TotalPointBounds, SeatSwapCancels and EvaluateAlgorithmOf: the seat-alternated sum of the per-game points, between 0 and n, which the loop accumulates |
| Arena.TotalPointBounds | evaluate_best_player.py:41-47 | n games give between 0 and n points |
| Arena.AverageBounds | evaluate_best_player.py:54 | the average lies in [0, 1] |
| Arena.SeatSwapCancels | evaluate_network.py:63-68 | when the first seat scores the same p whoever sits there, an even number 2m of games gives exactly m points |
| Arena.EvaluateAlgorithmOf | evaluate_best_player.py:39-55 | the loop's average is the seat-alternated total divided by the game count, and lies in [0, 1] |
| EvaluateBestPlayer.EvaluateAlgorithmOf | evaluate_best_player.py:39-55 | ten games with draws worth one half; the average is the total over 10 and lies in [0, 1] |
| EvaluateBestPlayer.EvaluateBestPlayer | evaluate_best_player.py:58-79 | the three benchmarks are the averages against the random, alpha-beta and MCTS selectors |
| EvaluateBestPlayer.GamePointIsResultOfA | evaluate_best_player.py:12-15 | a game gives the searching player 1 for a win, 0 for a loss and 0.5 for a draw, in either seat |
| EvaluateNetwork.Promotes | evaluate_network.py:84-88 | through HalfDoesNotPromote, SeatDecidedDoesNotPromote and WinningAllPromotes: an average of exactly 0.5 does not promote, ten wins do |
| EvaluateNetwork.EvaluateNetwork | evaluate_network.py:49-88 | the average over ten seat-swapped games between the latest and the best selector lies in [0, 1], and promotion happens iff it exceeds 0.5 strictly |
| EvaluateNetwork.HalfDoesNotPromote | evaluate_network.py:84-88 | exactly five points out of ten does not promote |
| EvaluateNetwork.SeatDecidedDoesNotPromote | evaluate_network.py:63-75 | when the seat alone decides each game, the total is exactly 5 and there is no promotion |
| EvaluateNetwork.WinningAllPromotes | evaluate_network.py:63-88 | a latest selector that wins all ten games scores 10 and is promoted |
| EvaluateNetwork.PlayAsWritten | evaluate_network.py:23-41 | as written, play's result depends only on the selector pair imported from test1 |
| EvaluateNetwork.EvaluateNetworkAsWritten | evaluate_network.py:49-88 | as written, the promotion decision is a function of the imported pair alone |
| EvaluateNetwork.AsWrittenMissesStrongerNetwork | evaluate_network.py:34 | a latest selector that wins every game is promoted by the intended evaluation, but not by the code as written when the imported pair always draws |
| Test1.DrawnGameContribution | test1.py:38-43 | with a draw worth 1, a drawn game gives 1 when the first selector sits first and 0 when the seats are swapped |
| Test1.AllDrawsAverageHalf | test1.py:35-51 | if every game is drawn, the hundred-game average is exactly 0.5 |
| Test1.EvaluateAlgorithmOf | test1.py:35-51 | a hundred games with draws worth 1; the average is the total over 100 and lies in [0, 1] |
| Test1.Benchmarks | test1.py:54-59 | the script's results are the averages of MCTS against random and against alpha-beta |

## Left out

- Network construction, training, and checkpoint loading and saving (dual_network.py, train_network.py, and `load_model`/`K.clear_session` in the core files) are foreign-library calls. The network is a parameter.
- main.py (a remote-worker demo) and training_cycle.py (a fixed sequence of the phases) are not part of this model.
- Randomness is not modelled; random choices are parameters that must pick a legal cell. This covers `random_action`, `playout`, `np.random.choice` in `pv_mcts_action` and in self-play, and the random state inside `mcts_action`. Choice probabilities (`p=scores`) are not modelled.
- PvMcts.PvMctsScores: the Boltzmann distribution `x ** (1/temperature)` is floating-point, so it is a parameter. The contract states only that the parameter is applied to the root's visit counts.
- PvMcts.Evaluate: the PUCT formula with `sqrt` (pv_mcts.py:86-95) is floating-point, so the child choice is a parameter that returns a valid index. Which child the formula picks is not modelled.
- `pv_mcts_action` (pv_mcts.py:116-120) is a closure over the search plus a random draw, so it has no member of its own. In the arena it is one of the selector parameters.
- The network's outputs are reals, not floats: rounding in `policies /= sum(policies)` is not modelled.
- The rollout MCTS `mcts_action` (game.py:164-232) is only a selector parameter. Two of its defects are therefore not modelled: `expand` builds children from the enclosing `state` rather than `self.state` (game.py:211), and the backup does not negate values (game.py:202).
- Printing is left out: `__str__`, the score printouts in the `*_action` functions, the progress and average printouts, and the label strings.
- File I/O is left out: `write_data`'s pickling, and `update_best_player`'s file copy (only its boolean result is modelled).
- The in-place updates of the search tree's `node` objects are modelled on an explicit tree value that `Simulate` rebuilds along the visited path. Object aliasing is not modelled, though the source never shares a node between parents.
- Importing test1 from evaluate_network.py runs test1's two benchmarks at import time. The model keeps only the pair it leaves in `next_actions`.
- A selector is a function of the game number and the position only. When one randomised selector plays several benchmarks over the same game numbers (test1.py:54-59, evaluate_best_player.py:58-79), the model makes it answer the same at the same game number and position in each benchmark, where the source's shared random generator need not. No stated property depends on this.
- EN_TEMPERATURE (evaluate_network.py:13) only configures the selectors built from `pv_mcts_action`, which are parameters.

## Findings

| source | as written | input that shows it | evidently intended | confidence | as-written member | corrected member |
|---|---|---|---|---|---|---|
| evaluate_network.py:23-41 | `play(model)` never reads its parameter. It uses `next_actions`, imported from test1 (evaluate_network.py:9), which ends up as (mcts_action, alpha_beta_action). Both seatings in `evaluate_network` therefore play that same pair, and the decision does not depend on the two networks. | A latest network that wins every game against the best one, while the imported pair draws every game: as written the total is 5 of 10, so the latest network is not promoted. | `play(next_actions)` over the pair built from the two networks, as evaluate_best_player.py:18 does. | high, not executed | EvaluateNetwork.AsWrittenMissesStrongerNetwork | EvaluateNetwork.EvaluateNetwork |
