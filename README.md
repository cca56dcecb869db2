# Degrees of separation and tic-tac-toe, modelled in Dafny

This project models two small programs from an introductory AI course.

**Degrees of separation** (`projects/2020/x/degrees/degrees.py`) finds how
two film people are linked by co-starring. The people/movies store is two
read-only maps: person id to the set of that person's movies, and movie id
to the set of its stars. The search state is a pair (connecting movie,
person). The start person's state carries no movie (degrees.py writes -1 there;
here `Via.Start`). `shortest_path` is a breadth-first search over a FIFO
frontier (`QueueFrontier`). Each dequeued node is tested with
`is_goal_node`. Each of its neighbour states that is neither explored nor
already on the frontier is enqueued as its child. The path is rebuilt by
walking parent links from the goal, reversing, and dropping the root.

* `CoStarGraph` (costar_graph.dfy): the store, states, the co-star step,
  chains, reachability and shortest chains.
* `Frontier` (frontier.dfy): search nodes and the `QueueFrontier` class. Its
  `frontier` field is the list that its methods change in place. A node's
  parent is an index into the arena of nodes already expanded.
* `SearchTree` (search_tree.dfy): ghost reasoning about the sequence of
  every node ever enqueued. This sequence is the expanded nodes followed by
  the frontier, in FIFO order. The module covers parent paths, depths, and
  which states have been seen and closed.
* `Degrees` (degrees.dfy): `NeighborsForPerson`, `NeighborsAsPeople`, the
  expansion loop (`Consider`, `Expand`), `Search` and `ShortestPath` are
  imperative methods proved against the store; `GetPerson` and `IsGoalNode`
  are functions.

**Tic-tac-toe** (`projects/2020/x/tictactoe/tictactoe.py`) covers the board
rules and a depth-bounded game tree. A board is three rows of three cells,
each empty or holding X or O.

* `TicTacToe` (tictactoe.dfy): the board rules. `player`, `actions`,
  `result` and `has_empty_cell` are loop methods proved against
  specification functions. `player_win`, `winner`, `terminal` and `utility`
  are functions that follow the if-chains of tictactoe.py.
* `GameTree` (game_tree.dfy): `get_tree`. It builds one child per action,
  overwrites a terminal child's score with its utility, and takes the best
  child score by strict improvement. This is written as the function `Tree`
  and as the method `GetTree` proved equal to it. `minimax` picks the action
  of the best child.

## Model

| member | source | states |
|---|---|---|
| Degrees.GetPerson | projects/2020/x/degrees/degrees.py:222-237 | A key gives a state exactly when its person id is in the store. The state keeps that id. A bare id gets the "no movie" marker; a (movie, id) pair keeps its movie. |
| Degrees.GoalTestIgnoresMovieAndParent | projects/2020/x/degrees/degrees.py:213-219 | The goal test holds exactly when the person components agree. Movie and parent play no part. |
| Degrees.NeighborsForPerson | projects/2020/x/degrees/degrees.py:277-287 | (m, q) is in the result exactly when m is one of p's movies and q one of m's stars. |
| Degrees.SelfIsOwnNeighborPerMovie | projects/2020/x/degrees/degrees.py:277-287 | In a symmetric store, (m, p) is a neighbour of p exactly for each movie m of p. p's own pairs are not filtered out. |
| Degrees.NeighborsAsPeople | projects/2020/x/degrees/degrees.py:266-274 | The returned states are exactly the co-star steps out of the node's person, each listed once. |
| Degrees.Consider | projects/2020/x/degrees/degrees.py:187-196 | One neighbour is appended to the frontier as a child of the expanded node exactly when it is neither explored nor held by a frontier node (whole-state equality); otherwise the frontier is unchanged. The search invariant is kept, and the neighbour ends up seen within one level below the expanded node. |
| Degrees.Expand | projects/2020/x/degrees/degrees.py:184-196 | Returns exactly the steps out of the node, and the new frontier is the old one followed by those of them that are not yet held, in order, each a child of the expanded node. The frontier stays FIFO and in nondecreasing depth with no repeated state, and the expanded node is closed. |
| Degrees.EnqueueSpec | projects/2020/x/degrees/degrees.py:187-196 | Considering the first j neighbours in order keeps the old frontier in front. Each appended node is a child of the expanded node and holds one of those neighbours that was neither explored nor on the old frontier, with no state appended twice. Afterwards each of those neighbours is explored or on the frontier. |
| Degrees.Reversed | projects/2020/x/degrees/degrees.py:206 | The result has the input's length, and its k-th entry is the input's k-th entry from the end. |
| Degrees.Backtrack | projects/2020/x/degrees/degrees.py:199-209 | Walking the parent links from the goal, reversing, and dropping the root gives the goal's path of states from the root. |
| Degrees.Search | projects/2020/x/degrees/degrees.py:161-196 | Runs the dequeue/expand loop on a frontier holding only the source node. It stops without a goal only when no co-star chain reaches the target. A goal's parent path over the expanded nodes is a shortest chain to the target. Each state is enqueued at most once, which bounds the loop. |
| Degrees.ShortestPath | projects/2020/x/degrees/degrees.py:133-210 | Same person: returns the source node itself. Otherwise returns "no path" exactly when no co-star chain joins source and target. A returned path is a chain from the source, ends at the target, and is no longer than any other such chain. The loop ends because each state is enqueued once. |
| Frontier.QueueFrontier.constructor | projects/2020/x/degrees/degrees.py:149 | A new frontier is empty. |
| Frontier.QueueFrontier.Add | projects/2020/x/degrees/degrees.py:194-196 | The node is appended at the back. |
| Frontier.QueueFrontier.ContainsState | projects/2020/x/degrees/degrees.py:194 | True exactly when some frontier node holds an equal state. |
| Frontier.QueueFrontier.Empty | projects/2020/x/degrees/degrees.py:163 | True exactly when the frontier holds no node. |
| Frontier.QueueFrontier.Remove | projects/2020/x/degrees/degrees.py:164 | Returns the earliest added node and drops it from the front. |
| SearchTree.PathToChain | projects/2020/x/degrees/degrees.py:199-209 | The parent path of an enqueued node is a co-star chain from the source that ends in the node's state. |
| SearchTree.EnqueueKeeps | projects/2020/x/degrees/degrees.py:194-196 | Enqueuing a state no node holds, as a child of the expanded node, keeps the layout: parents before children, depths sorted and at most one more than the expanded node's, states distinct. |
| SearchTree.DequeueKeeps | projects/2020/x/degrees/degrees.py:164-170 | Dequeuing a non-goal node starts its expansion at that node's depth. |
| SearchTree.ExpansionDone | projects/2020/x/degrees/degrees.py:186-196 | Once every step out of the expanded node is seen one level below it, that node counts as closed. The remaining frontier lies in at most two adjacent depth levels. |
| SearchTree.ShortChainsExplored | projects/2020/x/degrees/degrees.py:163-170 | Every chain shorter than the depth of the next node to dequeue ends in a state already dequeued, at a depth no greater than the chain's length. |
| SearchTree.AllChainsExplored | projects/2020/x/degrees/degrees.py:163-170 | Once the frontier is empty, every chain from the source ends in a dequeued state. |
| SearchTree.GoalIsShortest | projects/2020/x/degrees/degrees.py:163-170 | When the dequeued node's person is the target, its parent path reaches the target and is a shortest chain. |
| SearchTree.ExhaustedMeansUnconnected | projects/2020/x/degrees/degrees.py:163-210 | If the frontier empties with no goal dequeued, no chain joins source and target. |
| CoStarGraph.ShortestChainHasNoRepeatedPerson | projects/2020/x/degrees/degrees.py:133-143 | A shortest chain between different people never visits a person twice and never returns to the source. |
| TicTacToe.InitialState | projects/2020/x/tictactoe/tictactoe.py:14-20 | Every cell of the starting board is empty. |
| TicTacToe.EmptyBoardFacts | projects/2020/x/tictactoe/tictactoe.py:14-50 | On an empty board, X is to move, no cell is filled, the mark counts are balanced, and all nine cells are moves. |
| TicTacToe.Player | projects/2020/x/tictactoe/tictactoe.py:23-38 | Returns X exactly when the board holds as many X as O marks; otherwise O. |
| TicTacToe.ActionsOfSpec | projects/2020/x/tictactoe/tictactoe.py:41-50 | The moves are exactly the empty cells, each listed once, in row-major order. |
| TicTacToe.Actions | projects/2020/x/tictactoe/tictactoe.py:41-50 | The scanning loop returns exactly the list of moves described above. |
| TicTacToe.ApplyCells | projects/2020/x/tictactoe/tictactoe.py:53-68 | A move to a free cell gives a board with the mark to move in that cell and every other cell unchanged. |
| TicTacToe.Result | projects/2020/x/tictactoe/tictactoe.py:53-68 | Returns no board exactly when the addressed cell is taken. Otherwise the copy loop gives the board described above. |
| TicTacToe.NegativeActionIsNoMove | projects/2020/x/tictactoe/tictactoe.py:56-66 | An action with a negative index passes the emptiness test through Python's wrap-around, but the copy loop never matches it. The result is an unchanged copy. |
| TicTacToe.CountAfterMove | projects/2020/x/tictactoe/tictactoe.py:53-68 | A legal move adds exactly one mark, of the side to move, and changes no other count. |
| TicTacToe.MoveKeepsBalance | projects/2020/x/tictactoe/tictactoe.py:23-68 | From a board with #X - #O in {0, 1}, a legal move keeps #X - #O in {0, 1}, fills one more cell, and passes the turn. |
| TicTacToe.PlayerWinIffLine | projects/2020/x/tictactoe/tictactoe.py:82-99 | A player wins exactly when one of the 3 rows, 3 columns or 2 diagonals is entirely theirs. |
| TicTacToe.HasEmptyCell | projects/2020/x/tictactoe/tictactoe.py:117-122 | The scan with early return is true exactly when some cell is empty. |
| TicTacToe.HasEmptyIffActions | projects/2020/x/tictactoe/tictactoe.py:117-122 | Some cell is empty exactly when the list of moves is non-empty. |
| TicTacToe.EndOfGameConsistent | projects/2020/x/tictactoe/tictactoe.py:71-133 | `winner` checks X before O and gives nothing when neither has a line. `utility` is 1 / -1 / 0 with the same priority. `terminal` holds exactly when there is a winner or no move is left. |
| GameTree.Choose | projects/2020/x/tictactoe/tictactoe.py:200-215 | The scoring pass ends with a score that no child beats. With no choice, the score is the initial one. A choice is the first child reaching the final score, and it strictly beats the initial score. |
| GameTree.TreeRoot | projects/2020/x/tictactoe/tictactoe.py:218-236 | A node holds its board, has no action, and maximises exactly when X is to move. |
| GameTree.TreeLeaf | projects/2020/x/tictactoe/tictactoe.py:173-179 | At depth 0 there are no children and no choice, and the score is -100 for X to move, 100 for O. |
| GameTree.TreeChildren | projects/2020/x/tictactoe/tictactoe.py:181-189 | Below depth 0 the children match the moves one to one and in order. |
| GameTree.ChildFacts | projects/2020/x/tictactoe/tictactoe.py:181-189 | A child records its action and the board that action leads to. A terminal child scores its utility; any other child keeps the score of its own subtree. |
| GameTree.TreeScore | projects/2020/x/tictactoe/tictactoe.py:200-215 | A node's score is the max (X to move) or min (O to move) of its initial score and its children's scores. best_choice is the first child reaching it, and is unset exactly when no child strictly beats the initial score. |
| GameTree.ExpandsBelowWin | projects/2020/x/tictactoe/tictactoe.py:164-189 | A board that is already won but has an empty cell is still expanded. |
| GameTree.LeafChildKeepsInitialScore | projects/2020/x/tictactoe/tictactoe.py:173-189 | A depth-0 child on a board that is not over keeps its initial ±100, which is never its utility. |
| GameTree.Subtree | projects/2020/x/tictactoe/tictactoe.py:182-189 | One pass of the expansion loop gives exactly the child described above. |
| GameTree.ExpandAll | projects/2020/x/tictactoe/tictactoe.py:181-189 | The expansion loop gives one child per move, in order. |
| GameTree.ScoreChildren | projects/2020/x/tictactoe/tictactoe.py:200-215 | The in-place scoring loop ends with exactly the score and best_choice of the scoring pass `Choose`. |
| GameTree.GetTree | projects/2020/x/tictactoe/tictactoe.py:164-215 | The node built in place equals the specified tree, so it has every property above. |
| GameTree.Minimax | projects/2020/x/tictactoe/tictactoe.py:136-161 | When best_choice is set, returns that child's action. Any action returned is a legal move and one of the actions. No action is returned exactly when no cell is empty. |

## Left out

- `load_data`, `main`, `list_people` and `person_id_for_name` in degrees.py are left out. They do file reading, console input and printing. The store they load is a parameter here. Its well-formedness (`Valid`: every movie a person lists is known, every star is a known person) is assumed as a precondition, and the loader does not guarantee it (next line).
- The loader's partial update is left out (degrees.py:49-55). For a star row with a known person and an unknown movie, the movie is first added to the person's movies and the `KeyError` from the missing movie is then swallowed. A search that reaches that person would then fail with a `KeyError` in `neighbors_for_person` (degrees.py:285). Stores like that are excluded by `Valid`, so the model does not show the crash.
- Progress printing and stream flushing in `shortest_path` are left out. The `states_explored` counter only feeds that printing.
- The person record that `get_person` puts in each state is left out, and so is its `p['id'] = pid` write into the global store. A state is (movie, person id), and the record follows from the id.
- `Degrees.ShortestPath` requires that both ids are in the store. For an unknown id, `get_person` returns an empty tuple, on which the goal test of degrees.py would fail with an index error.
- util.py is not part of this model. Its `Node` and `QueueFrontier` are modelled from their use in degrees.py: a FIFO list with append, pop-front, empty and an equality scan. A node's parent is an arena index instead of an object reference. `StackFrontier` is unused and left out.
- The order in which Python iterates a set is not modelled. `NeighborsForPerson` and `NeighborsAsPeople` take elements in an arbitrary order, so their contracts hold for every order.
- Three behaviours of the code are kept as written. For source == target the code returns a one-element list holding the source node (`Reply.SourceOnly`), not an empty list. Duplicate checks compare whole (movie, person) states, so a person can be enqueued once per connecting movie. A person's own (movie, self) pairs are not filtered from the neighbours.
- `GameTree.Minimax`: the random draw among the moves, taken when no child beats the initial score, is the parameter `pick`. The action taken is the one at position `pick % |moves|`, so which move gets drawn is not modelled. Printing and `print_node` are left out.
- `new_node(None)` is left out: every caller passes a board, and a board is never empty (so never falsy).
- `TicTacToe.Result` requires both action components to be in -3 .. 2. Outside that range Python raises an index error before anything is built. Components from -3 to -1 are modelled with Python's wrap-around.
- Boards are immutable values. tictactoe.py builds fresh lists and never writes to its input board, so the model does not need in-place updates or aliasing.
- `GameTree.GetTree`: the node of tictactoe.py is a dictionary that also holds a min/max label and no score for a missing board. The model keeps a boolean `maximizing` in place of the label, and the missing-board case is the `new_node(None)` line above.
