# Maze solver model

This project models a small maze solver in Dafny. The solver reads a text maze in which
`#` (or any other character except space, `A` and `B`) is a wall, `A` marks the start
and `B` marks the goal. It then searches the grid of open cells with depth-first search
(a stack frontier) or breadth-first search (a queue frontier). On success it records the
actions and cells of a path from the start to the goal.

The modules follow the program's parts:

- `MazeGrid` (grid.dfy): cells, the four actions, the loaded grid, and `Neighbors`, with
  the candidate order up, down, left, right. It also defines paths and reachability.
- `MazeText` (text.dfy): turns the lines of maze text into a grid, with the count checks
  on `A` and `B`.
- `Nodes` (node.dfy): search-tree nodes as a recursive datatype, and the walk back
  along the parent chain.
- `Frontiers` (frontier.dfy): the frontier object. It holds a list of nodes and a set of
  their states, and one removal policy, `Stack` or `Queue`.
- `Search` (search.dfy): the maze object. Its `Solve` method runs the search loop and
  updates `solution`, `numExplored` and `explored` in place. The module also holds the
  invariant of that loop and the lemmas behind it.
- `Wrappers` (wrappers.dfy): `Option`, `Result` and `Outcome`.

The main results:

- `Solve` succeeds exactly when the goal is reachable. On success, the recorded solution
  is a walk of legal moves from the start that ends on the goal and never revisits the
  start.
- On failure, the explored set is exactly the set of cells reachable from the start.
- The number of nodes explored never exceeds the number of open cells. This bound is
  also what makes the loop terminate.
- The stack frontier's `remove` can never hit a missing state while the search runs.

## Model

| member | source | states |
|---|---|---|
| MazeGrid.Grid.Neighbors | maze/maze.py:125-139 | Each returned pair is an action and the cell it leads to, and that cell is inside the grid and not a wall. Every action whose target cell is open appears in the result. |
| MazeGrid.Grid.ListNeighbors | maze/maze.py:125-139 | The loop over the four candidate moves, with its bounds-and-wall test, returns exactly `Neighbors(c)`. |
| MazeGrid.NeighborsInOrder | maze/maze.py:127-132 | Neighbours come out in the fixed candidate order: up, then down, then left, then right. |
| MazeGrid.NeighborsAreAdjacent | maze/maze.py:125-139 | A cell is among `c`'s neighbours iff it is open and at Manhattan distance 1 from `c`. The adjacency side is defined independently of the candidate list. |
| MazeGrid.ClosedSetHoldsReachable | maze/maze.py:161-192 | A set that contains the start and holds every open neighbour of its members contains every cell reachable from the start. This is the completeness argument for an exhausted search. |
| MazeText.MaxLen | maze/maze.py:76 | On a non-empty list of lines, the width is at least every line's length and equals the length of some line (the maximum of the line lengths). The empty case, where Python's `max` would raise, cannot arise: text without lines has no `A` and is rejected first. |
| MazeText.ScanRow | maze/maze.py:80-99 | The row has `width` cells. Cell `j` is a wall iff `j` lies within the line and the character there is not `A`, `B` or a space, so padding past the line's end is open. A reported `A` or `B` column holds that character, and "none" means the line has no such character. |
| MazeText.Load | maze/maze.py:68-100 | The result is the start-count error iff the text does not have exactly one `A`. It is the goal-count error iff there is exactly one `A` but not exactly one `B`. Otherwise it is a valid grid: one row per line, width equal to the longest line, walls as in `ScanRow`, the start on the `A`, the goal on the `B`, and both open. |
| MazeText.MarkersAreUnique | maze/maze.py:68-71 | For a grid loaded from the text, the start is the only cell holding `A` and the goal is the only cell holding `B`. |
| Nodes.Backtrack | maze/maze.py:174-181 | The returned actions and cells are those of the node's parent chain, root excluded, in order from the root to the node. |
| Nodes.ReverseReverse | maze/maze.py:180-181 | Reversing the collected lists twice gives them back, so the backward walk followed by `reverse` yields root-to-node order. |
| Frontiers.Frontier.constructor | maze/maze.py:16-20 | A new frontier has no nodes and no recorded states. |
| Frontiers.Frontier.Add | maze/maze.py:23-25 | The node is appended and its state recorded. The frontier stays valid, and stays in lock step when the state was not yet listed. |
| Frontiers.Frontier.ContainsState | maze/maze.py:28-29 | Answers whether the state is in the recorded state set. When the set mirrors the list (the stack's lock step), that is exactly whether some listed node holds the state. A valid frontier never misses a listed state. |
| Frontiers.Frontier.Empty | maze/maze.py:32-33 | Answers whether the node list is empty. |
| Frontiers.Frontier.Remove | maze/maze.py:39-56 | An empty frontier gives the empty-frontier error and changes nothing. Otherwise the list becomes the policy's `Rest`, and the set becomes its `RecordAfter`, the one description of a removal shared with the search. Concretely, the stack policy pops the last node and deletes its state from the set, and fails after the pop when the state was missing. The queue policy takes the first node, keeps the rest in order and leaves the set alone. A valid, non-empty frontier never fails. The stack keeps lock step and the queue keeps validity. |
| Frontiers.StatesDropLast | maze/maze.py:42-43 | When the listed states are distinct, dropping the last node removes exactly its state from the listed states. |
| Search.Maze.constructor | maze/maze.py:102-103 | A new maze has no solution yet. |
| Search.Maze.Offer | maze/maze.py:190-192 | If the state is recorded in the frontier or explored, the list and set are unchanged. Otherwise the child node is appended and its state recorded. During the search, "recorded or explored" is the same as "listed or explored", so the queue's leftover records never block a state. The search invariant is kept, and afterwards the state is explored or listed. |
| Search.Maze.EnqueueNeighbors | maze/maze.py:189-192 | The new list is the old list followed by `Appended`: one child per neighbour, in neighbour order, whose state was neither recorded, explored nor already appended. The set gains exactly those states. Afterwards each neighbour is explored or listed, and the invariant is kept. |
| Search.Maze.Explore | maze/maze.py:186-192 | The explored set gains the node's state. The list and set gain exactly the children that `EnqueueNeighbors` appends, computed with the node already explored. The invariant and the closure property hold again afterwards. |
| Search.Maze.Advance | maze/maze.py:164-192 | One loop round. An empty frontier changes nothing, the explored set equals the reachable cells, and the goal is unreachable. Otherwise the removed node is the policy's `Next` (the stack's last node, the queue's first) and is counted. On the goal, the list becomes the policy's `Rest` and the set loses the state for a stack only; the node's parent chain is well built. Otherwise the node's state becomes explored, and the list is `Rest` followed by the node's `Appended` children. The invariant is kept, and the explored cells plus the frontier stay within the open cells. |
| Search.Maze.Solve | maze/maze.py:141-192 | The outcome is tied to `SearchRun` for the policy `useQueue` selects: a queue when true, a stack when false. The explored set is the run's. `Solve` succeeds iff the run finds a node, and the recorded solution is that node's chain. Success iff the goal is reachable. On success the solution is a legal walk from the start to the goal that avoids the start, and `numExplored` is the explored count plus one. On failure the error is "no solution", the explored set is exactly the reachable cells, and `solution` is unchanged. The explored cells are open and reachable, and `numExplored` never exceeds the number of open cells. |
| Search.StepIsNeighbor | maze/maze.py:189 | Stepping from `c` by `a` to `d` is legal iff `(a, d)` is in `c`'s neighbour list. |
| Search.WalkFollowsActions | maze/maze.py:173-183 | The cells of a walk are exactly those obtained by replaying its actions from the start cell. |
| Search.SolutionReachesGoal | maze/maze.py:173-183 | Replaying a solution's actions from the start ends on the goal. |
| Search.ChainIsWalk | maze/maze.py:174-181 | A node built by the search has actions and cells along its parent chain that form a legal walk from the start, ending on the node's state. |
| Search.ChainReachable | maze/maze.py:190-192 | The state of every node the search builds is reachable from the start. |
| Search.GoalChainIsSolution | maze/maze.py:172-183 | The backtracked chain of a goal node built by the search is a solution. |
| Search.SearchBound | maze/maze.py:161-192 | Under the loop invariant, the explored cells plus the frontier's nodes number at most the open cells. |
| Search.AppendedChildren | maze/maze.py:189-192 | Every appended node is a child of the expanded node through one of its moves, holds a state not yet seen, and no two hold the same state. Afterwards every neighbour's state is seen or appended. |
| Search.AppendedKeepsInv | maze/maze.py:189-192 | Appending the children of the first `k` offered neighbours of a well-built node keeps the search invariant (by induction on `k`). |
| Search.ExpansionKeepsInv | maze/maze.py:189-192 | Appending the children of all of a node's neighbours, in neighbour order, keeps the search invariant. |
| Search.RunSound | maze/maze.py:161-192 | `Run` is the search loop as a function of the frontier list, record set and explored set, using `Next`, `Rest`, `RecordAfter` and `Appended`. From any state satisfying the invariant and the closure property, a node the run finds is a well-built chain ending on the goal. A run that empties the frontier has explored exactly the reachable cells, and the goal is not among them. |
| Search.SearchRunCorrect | maze/maze.py:141-192 | For either policy, the run from the start finds a node iff the goal is reachable. The found node's chain is a solution, and a run that finds none has explored exactly the reachable cells. |
| Search.ExploreKeepsInv | maze/maze.py:168-186 | Removing the policy's `Next` node, a non-goal one, leaving `Rest` and `RecordAfter`, and marking its state explored keeps the invariant: the listed states stay distinct and disjoint from the explored set, every state is open and reachable, and the recorded states stay between the listed and the listed-plus-explored ones. |
| Search.EnqueueKeepsInv | maze/maze.py:190-192 | Appending a child of a well-built node, reached by a legal step to a state that is neither recorded nor explored, keeps the invariant, and the explored-plus-listed cells gain exactly that state. |
| Search.ExpansionCloses | maze/maze.py:186-192 | After a cell is explored and all its neighbours are explored or listed, the explored set is again closed within explored-plus-listed. |
| Search.ExhaustedSearch | maze/maze.py:164-165 | When the frontier is empty under the invariant, the explored set is exactly the reachable cells, and the goal is not reachable. |

## Left out

- Reading the maze file (`open`, `read`, `splitlines`) is I/O. The model takes the list of lines. The `A`/`B` counts are taken over the lines, which matches counting over the whole text because line separators are never `A` or `B`.
- `Maze.print` and `output_image` are output only (console, and PIL image drawing), and are not modelled.
- The command-line script is not modelled: argument checking, `sys.exit` and the usage message.
- Error messages are not modelled. The exceptions the program raises are the `LoadError`, `FrontierError` and `SearchError` datatypes, returned as values.
- Search.Maze.Solve: the breadth-first shortest-path property is not proved. The contract fixes the returned solution as the one `SearchRun` yields for the chosen policy, but no lemma compares its length with other paths.
- Search.Maze.Solve takes `useQueue` as a required argument. Dafny methods have no default arguments, so the program's default `use_queue=False` is a call with `false`.
- Search.Maze.constructor takes a grid already produced by `MazeText.Load` rather than a file name, because a Dafny constructor cannot fail. It also starts `numExplored` at 0 and `explored` at the empty set; the program first sets these inside `solve`, and `Solve` resets them.
- The body of the `solve` loop is split into `Advance`, `Explore`, `EnqueueNeighbors` and `Offer`, and path reconstruction into `Nodes.Backtrack`. The program writes this inline; the order of the steps is the same.
- The two frontier subclasses are one `Frontier` class with a `Policy` field. The base class's missing `remove` has no counterpart.
- Nodes are immutable values (a recursive datatype), not heap objects, so sharing of parent objects is not modelled. The program never mutates a node.
- Frontiers.Frontier.Remove: the queue policy leaves removed states in the recorded set, as the program does. The search stays correct because every recorded state is listed or explored, which the search invariant states.
- Integer widths play no role: Python integers are unbounded, and so are Dafny's.
