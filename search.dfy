/**
 * The search engine (maze/maze.py, Maze.solve): the traversal loop over the
 * frontier and the explored set, and what a returned solution satisfies.
 */
module Search {
  import opened Wrappers
  import opened MazeGrid
  import opened Nodes
  import opened Frontiers

  /** The actions taken and the cells entered, start excluded, goal last. */
  datatype Solution = Solution(actions: seq<Action>, cells: seq<Cell>)

  datatype SearchError = NoSolution

  /** How one round of the search loop ended. */
  datatype Round = Exhausted | ReachedGoal(node: Node) | Expanded(node: Node)

  /**
   * `n`'s parent chain is one the search builds: the root holds the start,
   * and every other node holds the cell its action leads to from its
   * parent's state, an open cell other than the start.
   */
  ghost predicate ChainOk(g: Grid, n: Node)
    requires g.Shaped()
  {
    match n
    case Root(s) => s == g.start
    case Child(s, p, a) => s != g.start && Step(g, p.state, a, s) && ChainOk(g, p)
  }

  /** Action `a` leads from `c` to the open cell `d`. */
  predicate Step(g: Grid, c: Cell, a: Action, d: Cell)
    requires g.Shaped()
  {
    d == Move(c, a) && g.Open(d)
  }

  /** A step is exactly a pair the neighbour function returns. */
  lemma StepIsNeighbor(g: Grid, c: Cell, a: Action, d: Cell)
    requires g.Shaped()
    ensures Step(g, c, a, d) <==> (a, d) in g.Neighbors(c)
  {
  }

  /** Each `cells[i]` is where `actions[i]` leads from the cell before it (`from` first), and is open. */
  ghost predicate IsWalk(g: Grid, from: Cell, actions: seq<Action>, cells: seq<Cell>)
    requires g.Shaped()
  {
    |actions| == |cells| &&
    (|cells| > 0 ==> Step(g, from, actions[0], cells[0])) &&
    forall i :: 0 < i < |cells| ==> Step(g, cells[i - 1], actions[i], cells[i])
  }

  /** A walk from the start that ends at the goal and never re-enters the start. */
  ghost predicate IsSolution(g: Grid, sol: Solution)
    requires g.Shaped()
  {
    match sol
    case Solution(actions, cells) =>
      IsWalk(g, g.start, actions, cells) &&
      |cells| > 0 && cells[|cells| - 1] == g.goal && g.start !in cells
  }

  /** The successive positions reached by applying `actions` one by one from `from`. */
  function Replay(from: Cell, actions: seq<Action>): (r: seq<Cell>)
    ensures |r| == |actions|
    decreases |actions|
  {
    if actions == [] then []
    else [Move(from, actions[0])] + Replay(Move(from, actions[0]), actions[1..])
  }

  /** Applying the actions of a walk in turn yields exactly its cells. */
  lemma {:induction false} WalkFollowsActions(g: Grid, from: Cell, actions: seq<Action>, cells: seq<Cell>)
    requires g.Shaped() && IsWalk(g, from, actions, cells)
    ensures cells == Replay(from, actions)
    decreases |actions|
  {
    if actions != [] {
      forall i | 0 < i < |cells| - 1
        ensures Step(g, cells[1..][i - 1], actions[1..][i], cells[1..][i])
      {
        assert Step(g, cells[i], actions[i + 1], cells[i + 1]);
      }
      WalkFollowsActions(g, cells[0], actions[1..], cells[1..]);
    }
  }

  /** Replaying a solution's actions from the start ends on the goal. */
  lemma SolutionReachesGoal(g: Grid, sol: Solution)
    requires g.Shaped() && IsSolution(g, sol)
    ensures Replay(g.start, sol.actions) == sol.cells
    ensures Replay(g.start, sol.actions)[|sol.actions| - 1] == g.goal
  {
    WalkFollowsActions(g, g.start, sol.actions, sol.cells);
  }

  /** The last cell of a walk from `from` (`from` itself for an empty walk). */
  function EndOf(from: Cell, cells: seq<Cell>): Cell
  {
    if cells == [] then from else cells[|cells| - 1]
  }

  /** A walk extended by one step from its end is a walk. */
  lemma WalkAppend(g: Grid, from: Cell, actions: seq<Action>, cells: seq<Cell>, a: Action, d: Cell)
    requires g.Shaped() && IsWalk(g, from, actions, cells) && Step(g, EndOf(from, cells), a, d)
    ensures IsWalk(g, from, actions + [a], cells + [d])
  {
    var acts', cells' := actions + [a], cells + [d];
    forall i | 0 < i < |cells'|
      ensures Step(g, cells'[i - 1], acts'[i], cells'[i])
    {
      if i < |cells| {
        assert cells'[i - 1] == cells[i - 1] && acts'[i] == actions[i] && cells'[i] == cells[i];
      } else {
        assert cells'[i - 1] == EndOf(from, cells);
      }
    }
  }

  /** The actions and cells of a well-built chain form a walk from the start to the node's state. */
  lemma {:induction false} ChainIsWalk(g: Grid, n: Node)
    requires g.Shaped() && ChainOk(g, n)
    ensures IsWalk(g, g.start, ActionsOf(n), CellsOf(n))
    ensures n.state == EndOf(g.start, CellsOf(n))
    ensures g.start !in CellsOf(n)
  {
    match n
    case Root(_) =>
    case Child(s, p, a) =>
      ChainIsWalk(g, p);
      WalkAppend(g, g.start, ActionsOf(p), CellsOf(p), a, s);
  }

  /** A walk from the start, with the start put in front, is a path. */
  lemma WalkIsPath(g: Grid, actions: seq<Action>, cells: seq<Cell>)
    requires g.Shaped() && IsWalk(g, g.start, actions, cells)
    ensures IsPath(g, [g.start] + cells)
  {
    var p := [g.start] + cells;
    forall i | 0 < i < |p|
      ensures Adjacent(g, p[i - 1], p[i])
    {
      assert Step(g, p[i - 1], actions[i - 1], p[i]);
    }
  }

  /** The state of a well-built node is reachable from the start. */
  lemma ChainReachable(g: Grid, n: Node)
    requires g.Shaped() && ChainOk(g, n)
    ensures Reachable(g, n.state)
  {
    ChainIsWalk(g, n);
    WalkIsPath(g, ActionsOf(n), CellsOf(n));
    var p := [g.start] + CellsOf(n);
    assert IsPath(g, p) && p[|p| - 1] == n.state;
  }

  lemma {:induction false} CardSubset<T>(a: set<T>, b: set<T>)
    requires a <= b
    ensures |a| <= |b|
  {
    if a != {} {
      var x :| x in a;
      CardSubset(a - {x}, b - {x});
    }
  }

  /**
   * What holds between steps of the search loop, for the frontier list
   * `nodes`, the frontier's recorded states and the explored set. States
   * recorded but no longer in the list (the queue frontier never forgets a
   * state) are all explored, so the test "recorded or explored" answers
   * exactly "in the list or explored".
   */
  ghost predicate SearchInv(g: Grid, nodes: seq<Node>, recorded: set<Cell>, explored: set<Cell>)
    requires g.Valid()
  {
    States(nodes) <= recorded <= States(nodes) + explored &&
    DistinctStates(nodes) && States(nodes) !! explored &&
    (forall n <- nodes :: ChainOk(g, n)) &&
    explored + States(nodes) <= g.OpenCells() &&
    (forall c :: c in explored ==> Reachable(g, c)) &&
    g.start in explored + States(nodes) && g.goal !in explored
  }

  /** A list with distinct states has as many states as nodes. */
  lemma {:induction false} DistinctStatesCount(nodes: seq<Node>)
    requires DistinctStates(nodes)
    ensures |States(nodes)| == |nodes|
  {
    if nodes != [] {
      StatesDropLast(nodes);
      DistinctStatesCount(nodes[..|nodes| - 1]);
    }
  }

  /** The explored cells and the frontier's nodes together number at most the open cells. */
  lemma SearchBound(g: Grid, nodes: seq<Node>, recorded: set<Cell>, explored: set<Cell>)
    requires g.Valid() && SearchInv(g, nodes, recorded, explored)
    ensures |explored| + |nodes| <= |g.OpenCells()|
  {
    DistinctStatesCount(nodes);
    DisjointUnionCount(explored, States(nodes));
    CardSubset(explored + States(nodes), g.OpenCells());
  }

  lemma StateListed(nodes: seq<Node>, k: nat)
    requires k < |nodes|
    ensures nodes[k].state in States(nodes)
  {
  }

  /** Moving `s` from the listed states to the explored ones keeps their union. */
  lemma MoveToExplored(explored: set<Cell>, listed: set<Cell>, rest: set<Cell>, s: Cell)
    requires s in listed && rest == listed - {s}
    ensures explored + {s} + rest == explored + listed
  {
  }

  /** A record set bounded by listed + explored stays bounded after `s` moves across. */
  lemma RecordedStaysBounded(recorded: set<Cell>, recorded': set<Cell>, listed: set<Cell>,
                             explored: set<Cell>, rest: set<Cell>, s: Cell)
    requires recorded <= listed + explored && rest == listed - {s}
    requires recorded' == recorded || recorded' == recorded - {s}
    ensures recorded' <= rest + (explored + {s})
  {
  }

  /** Taking the policy's next node, a non-goal one, off the frontier and exploring it keeps the invariant. */
  lemma ExploreKeepsInv(g: Grid, policy: Policy, nodes: seq<Node>, recorded: set<Cell>, explored: set<Cell>)
    requires g.Valid() && SearchInv(g, nodes, recorded, explored) && |nodes| > 0
    requires Next(policy, nodes).state != g.goal
    ensures var s := Next(policy, nodes).state;
      SearchInv(g, Rest(policy, nodes), RecordAfter(policy, recorded, s), explored + {s})
    ensures explored + {Next(policy, nodes).state} + States(Rest(policy, nodes)) == explored + States(nodes)
    ensures ChainOk(g, Next(policy, nodes)) && Next(policy, nodes).state !in explored
  {
    var node, rest := Next(policy, nodes), Rest(policy, nodes);
    var s := node.state;
    var k := if policy == Stack then |nodes| - 1 else 0;
    if policy == Stack {
      StatesDropLast(nodes);
    } else {
      StatesDropFirst(nodes);
    }
    assert node == nodes[k];
    StateListed(nodes, k);
    MoveToExplored(explored, States(nodes), States(rest), s);
    RecordedStaysBounded(recorded, RecordAfter(policy, recorded, s), States(nodes), explored, States(rest), s);
    ChainReachable(g, node);
    forall n | n in rest
      ensures ChainOk(g, n)
    {
      assert n in nodes;
    }
  }

  lemma DisjointUnionCount<T>(a: set<T>, b: set<T>)
    requires a !! b
    ensures |a + b| == |a| + |b|
  {
    assert a * b == {};
  }

  /** Adding a fresh state to both the list and the record keeps the record bounded. */
  lemma RecordedGrows(recorded: set<Cell>, listed: set<Cell>, explored: set<Cell>, s: Cell)
    requires listed <= recorded <= listed + explored
    ensures listed + {s} <= recorded + {s} <= (listed + {s}) + explored
    ensures explored + (listed + {s}) == (explored + listed) + {s}
  {
  }

  /** Enqueueing a new neighbour of a well-built node keeps the invariant. */
  lemma EnqueueKeepsInv(g: Grid, nodes: seq<Node>, recorded: set<Cell>, explored: set<Cell>,
                        parent: Node, action: Action, state: Cell)
    requires g.Valid() && SearchInv(g, nodes, recorded, explored)
    requires ChainOk(g, parent) && Step(g, parent.state, action, state)
    requires state !in recorded && state !in explored
    ensures SearchInv(g, nodes + [Child(state, parent, action)], recorded + {state}, explored)
    ensures explored + States(nodes + [Child(state, parent, action)]) == explored + States(nodes) + {state}
  {
    var child := Child(state, parent, action);
    var nodes' := nodes + [child];
    StatesAppend(nodes, child);
    RecordedGrows(recorded, States(nodes), explored, state);
    assert ChainOk(g, child);
    forall n | n in nodes'
      ensures ChainOk(g, n)
    {
      if n != child {
        assert n in nodes;
      }
    }
    assert state in g.OpenCells();
  }

  /** The chain of a goal node yields a solution. */
  lemma GoalChainIsSolution(g: Grid, n: Node)
    requires g.Valid() && ChainOk(g, n) && n.state == g.goal
    ensures IsSolution(g, Solution(ActionsOf(n), CellsOf(n)))
  {
    ChainIsWalk(g, n);
  }

  /**
   * After the neighbours of the newly explored `s` have all been looked at,
   * every explored cell has its adjacent cells explored or in the frontier.
   */
  lemma ExpansionCloses(g: Grid, before: set<Cell>, s: Cell, reached: set<Cell>, now: set<Cell>)
    requires g.Shaped() && Closed(g, before, reached) && reached <= now
    requires forall j :: 0 <= j < |g.Neighbors(s)| ==> g.Neighbors(s)[j].1 in now
    ensures Closed(g, before + {s}, now)
  {
    forall a, b | a in before + {s} && Adjacent(g, a, b)
      ensures b in now
    {
      if a == s {
        NeighborsAreAdjacent(g, a, b);
      }
    }
  }

  /** When the frontier runs dry, the explored set is exactly the reachable cells, and the goal is not one. */
  lemma ExhaustedSearch(g: Grid, recorded: set<Cell>, explored: set<Cell>)
    requires g.Valid() && SearchInv(g, [], recorded, explored) && Closed(g, explored, explored)
    ensures forall c :: Reachable(g, c) <==> c in explored
    ensures !Reachable(g, g.goal)
  {
    assert States([]) == {};
    forall c | Reachable(g, c)
      ensures c in explored
    {
      ClosedSetHoldsReachable(g, explored, c);
    }
  }

  /**
   * The children that offering `nbrs` in order to a frontier appends, when
   * the states in `seen` are already recorded or explored: one child of
   * `parent` per neighbour whose state is neither seen nor already appended.
   */
  ghost function Appended(parent: Node, nbrs: seq<(Action, Cell)>, seen: set<Cell>): seq<Node>
    decreases |nbrs|
  {
    if nbrs == [] then []
    else
      var pre := Appended(parent, nbrs[..|nbrs| - 1], seen);
      var (a, d) := nbrs[|nbrs| - 1];
      if d in seen + States(pre) then pre else pre + [Child(d, parent, a)]
  }

  /**
   * The appended nodes are children of `parent` through one of the offered
   * moves, hold unseen and pairwise distinct states, and afterwards every
   * offered state is seen or appended.
   */
  lemma {:induction false} AppendedChildren(parent: Node, nbrs: seq<(Action, Cell)>, seen: set<Cell>)
    ensures forall n <- Appended(parent, nbrs, seen) ::
      n.Child? && n.parent == parent && (n.action, n.state) in nbrs && n.state !in seen
    ensures DistinctStates(Appended(parent, nbrs, seen))
    ensures forall j :: 0 <= j < |nbrs| ==> nbrs[j].1 in seen + States(Appended(parent, nbrs, seen))
    ensures |Appended(parent, nbrs, seen)| <= |nbrs|
    decreases |nbrs|
  {
    if nbrs != [] {
      var init := nbrs[..|nbrs| - 1];
      var pre := Appended(parent, init, seen);
      AppendedChildren(parent, init, seen);
      var (a, d) := nbrs[|nbrs| - 1];
      var child := Child(d, parent, a);
      StatesAppend(pre, child);
      assert forall j :: 0 <= j < |init| ==> nbrs[j] == init[j];
      forall n | n in pre
        ensures (n.action, n.state) in nbrs
      {
        assert (n.action, n.state) in init;
      }
    }
  }

  /**
   * Offering neighbour `k` after the first `k` extends a list `listed ++
   * children` by that neighbour's child exactly when its state is neither
   * seen nor among the children so far.
   */
  lemma AppendedStep(parent: Node, nbrs: seq<(Action, Cell)>, seen: set<Cell>, k: nat, listed: seq<Node>, recorded: set<Cell>)
    requires k < |nbrs|
    ensures var pre := Appended(parent, nbrs[..k], seen);
      var next := Appended(parent, nbrs[..k + 1], seen);
      if nbrs[k].1 in seen + States(pre) then
        listed + next == listed + pre && recorded + States(next) == recorded + States(pre)
      else
        listed + next == (listed + pre) + [Child(nbrs[k].1, parent, nbrs[k].0)] &&
        recorded + States(next) == (recorded + States(pre)) + {nbrs[k].1}
  {
    var pre := Appended(parent, nbrs[..k], seen);
    assert nbrs[..k + 1][..k] == nbrs[..k];
    var child := Child(nbrs[k].1, parent, nbrs[k].0);
    StatesAppend(pre, child);
    assert listed + (pre + [child]) == (listed + pre) + [child];
  }

  /**
   * After all of `nbrs` has been offered to a frontier that listed `listed`
   * and recorded `recorded`, every offered state is explored or listed.
   */
  lemma AppendedCovers(g: Grid, listed: seq<Node>, recorded: set<Cell>, explored: set<Cell>,
                       parent: Node, nbrs: seq<(Action, Cell)>)
    requires g.Valid() && SearchInv(g, listed, recorded, explored)
    ensures var added := Appended(parent, nbrs, recorded + explored);
      States(listed) <= States(listed + added) &&
      forall j :: 0 <= j < |nbrs| ==> nbrs[j].1 in explored + States(listed + added)
  {
    var added := Appended(parent, nbrs, recorded + explored);
    AppendedChildren(parent, nbrs, recorded + explored);
    StatesConcat(listed, added);
  }

  /**
   * Offering the first `k` of `nbrs`, each a step from `parent`, to a
   * frontier satisfying the invariant appends children that keep it.
   */
  lemma {:induction false} AppendedKeepsInv(g: Grid, nodes: seq<Node>, recorded: set<Cell>, explored: set<Cell>,
                                            parent: Node, nbrs: seq<(Action, Cell)>, k: nat)
    requires g.Valid() && SearchInv(g, nodes, recorded, explored) && ChainOk(g, parent)
    requires k <= |nbrs| && forall j :: 0 <= j < |nbrs| ==> Step(g, parent.state, nbrs[j].0, nbrs[j].1)
    ensures var added := Appended(parent, nbrs[..k], recorded + explored);
      SearchInv(g, nodes + added, recorded + States(added), explored)
    decreases k
  {
    var seen := recorded + explored;
    if k == 0 {
      assert nbrs[..0] == [];
      assert nodes + [] == nodes;
      assert States([]) == {};
    } else {
      AppendedKeepsInv(g, nodes, recorded, explored, parent, nbrs, k - 1);
      OfferedKeepsInv(g, nodes, recorded, explored, parent, nbrs, k - 1);
    }
  }

  /** Offering neighbour `k`, a step from `parent`, after the first `k` keeps the invariant. */
  lemma OfferedKeepsInv(g: Grid, nodes: seq<Node>, recorded: set<Cell>, explored: set<Cell>,
                        parent: Node, nbrs: seq<(Action, Cell)>, k: nat)
    requires g.Valid() && ChainOk(g, parent) && k < |nbrs| && Step(g, parent.state, nbrs[k].0, nbrs[k].1)
    requires var pre := Appended(parent, nbrs[..k], recorded + explored);
      SearchInv(g, nodes + pre, recorded + States(pre), explored)
    ensures var next := Appended(parent, nbrs[..k + 1], recorded + explored);
      SearchInv(g, nodes + next, recorded + States(next), explored)
  {
    var seen := recorded + explored;
    AppendedStep(parent, nbrs, seen, k, nodes, recorded);
    var pre := Appended(parent, nbrs[..k], seen);
    if nbrs[k].1 !in seen + States(pre) {
      EnqueueKeepsInv(g, nodes + pre, recorded + States(pre), explored, parent, nbrs[k].0, nbrs[k].1);
    }
  }

  /** Expanding `parent`: its children appended in neighbour order keep the invariant. */
  lemma ExpansionKeepsInv(g: Grid, nodes: seq<Node>, recorded: set<Cell>, explored: set<Cell>, parent: Node)
    requires g.Valid() && SearchInv(g, nodes, recorded, explored) && ChainOk(g, parent)
    ensures var added := Appended(parent, g.Neighbors(parent.state), recorded + explored);
      SearchInv(g, nodes + added, recorded + States(added), explored)
  {
    var nbrs := g.Neighbors(parent.state);
    AppendedKeepsInv(g, nodes, recorded, explored, parent, nbrs, |nbrs|);
    assert nbrs[..|nbrs|] == nbrs;
  }

  /** The frontier holding only the start node satisfies the invariant. */
  lemma StartInv(g: Grid)
    requires g.Valid()
    ensures SearchInv(g, [Root(g.start)], {g.start}, {})
  {
    StatesAppend([], Root(g.start));
    assert [] + [Root(g.start)] == [Root(g.start)];
  }

  /** How a search ends: at a node holding the goal, or with the frontier empty; with the cells explored by then. */
  datatype RunResult = Found(node: Node, explored: set<Cell>) | NotFound(explored: set<Cell>)

  /**
   * The search loop as a function of its state: take the policy's next node;
   * stop at the goal; otherwise explore it, append its unrecorded
   * neighbours' children in neighbour order, and carry on.
   */
  ghost function Run(g: Grid, policy: Policy, nodes: seq<Node>, recorded: set<Cell>, explored: set<Cell>): RunResult
    requires g.Valid() && SearchInv(g, nodes, recorded, explored)
    decreases |g.OpenCells()| - |explored| - |nodes|, |nodes|
  {
    if nodes == [] then NotFound(explored)
    else
      var node := Next(policy, nodes);
      if node.state == g.goal then Found(node, explored)
      else
        var kept := RecordAfter(policy, recorded, node.state);
        var explored' := explored + {node.state};
        var added := Appended(node, g.Neighbors(node.state), kept + explored');
        ExploreKeepsInv(g, policy, nodes, recorded, explored);
        ExpansionKeepsInv(g, Rest(policy, nodes), kept, explored', node);
        SearchBound(g, nodes, recorded, explored);
        SearchBound(g, Rest(policy, nodes) + added, kept + States(added), explored');
        Run(g, policy, Rest(policy, nodes) + added, kept + States(added), explored')
  }

  /** The run of the search from the start node alone, nothing explored. */
  ghost function SearchRun(g: Grid, policy: Policy): RunResult
    requires g.Valid()
  {
    StartInv(g);
    Run(g, policy, [Root(g.start)], {g.start}, {})
  }

  /**
   * From a state satisfying the invariant and the closure property, a run
   * that finds a node finds a well-built chain to the goal, and a run that
   * ends with an empty frontier has explored exactly the reachable cells.
   */
  lemma {:induction false} RunSound(g: Grid, policy: Policy, nodes: seq<Node>, recorded: set<Cell>, explored: set<Cell>)
    requires g.Valid() && SearchInv(g, nodes, recorded, explored) && Closed(g, explored, explored + States(nodes))
    ensures var r := Run(g, policy, nodes, recorded, explored);
      (r.Found? ==> ChainOk(g, r.node) && r.node.state == g.goal) &&
      (r.NotFound? ==> (forall c :: Reachable(g, c) <==> c in r.explored) && !Reachable(g, g.goal))
    decreases |g.OpenCells()| - |explored| - |nodes|, |nodes|
  {
    if nodes == [] {
      assert States(nodes) == {};
      ExhaustedSearch(g, recorded, explored);
    } else {
      var node := Next(policy, nodes);
      var s := node.state;
      if s == g.goal {
        assert node in nodes;
      } else {
        var rest := Rest(policy, nodes);
        var kept := RecordAfter(policy, recorded, s);
        var explored' := explored + {s};
        var nbrs := g.Neighbors(s);
        var added := Appended(node, nbrs, kept + explored');
        ExploreKeepsInv(g, policy, nodes, recorded, explored);
        ExpansionKeepsInv(g, rest, kept, explored', node);
        SearchBound(g, nodes, recorded, explored);
        SearchBound(g, rest + added, kept + States(added), explored');
        AppendedChildren(node, nbrs, kept + explored');
        StatesConcat(rest, added);
        ExpansionCloses(g, explored, s, explored + States(nodes), explored' + States(rest + added));
        RunSound(g, policy, rest + added, kept + States(added), explored');
      }
    }
  }

  /**
   * Either policy's run from the start finds a node exactly when the goal is
   * reachable; the found node's chain is a solution, and a run that finds
   * none has explored exactly the reachable cells.
   */
  lemma SearchRunCorrect(g: Grid, policy: Policy)
    requires g.Valid()
    ensures var r := SearchRun(g, policy);
      (r.Found? <==> Reachable(g, g.goal)) &&
      (r.Found? ==> IsSolution(g, Solution(ActionsOf(r.node), CellsOf(r.node)))) &&
      (r.NotFound? ==> forall c :: Reachable(g, c) <==> c in r.explored)
  {
    StartInv(g);
    var r := Run(g, policy, [Root(g.start)], {g.start}, {});
    RunSound(g, policy, [Root(g.start)], {g.start}, {});
    if r.Found? {
      GoalChainIsSolution(g, r.node);
      ChainReachable(g, r.node);
    }
  }

  class Maze {
    const grid: Grid
    /** Set by a successful solve. */
    var solution: Option<Solution>
    /** Nodes removed from the frontier during the last solve. */
    var numExplored: nat
    /** States expanded during the last solve. */
    var explored: set<Cell>

    constructor (grid: Grid)
      requires grid.Valid()
      ensures this.grid == grid && solution == None
      ensures numExplored == 0 && explored == {}
    {
      this.grid := grid;
      solution := None;
      numExplored := 0;
      explored := {};
    }

    /** What holds of the frontier and the explored set between steps of Solve. */
    ghost predicate Searching(frontier: Frontier)
      reads this, frontier
    {
      grid.Valid() &&
      SearchInv(grid, frontier.frontier, frontier.frontierStates, explored) &&
      (frontier.policy == Stack ==> frontier.LockStep())
    }

    /**
     * Enqueues a child of `node` holding `state` unless the state is recorded
     * in the frontier or explored.
     */
    method Offer(frontier: Frontier, node: Node, action: Action, state: Cell)
      requires Searching(frontier) && ChainOk(grid, node) && Step(grid, node.state, action, state)
      modifies frontier
      ensures Searching(frontier)
      ensures if state in old(frontier.frontierStates) || state in explored then
          frontier.frontier == old(frontier.frontier) && frontier.frontierStates == old(frontier.frontierStates)
        else
          frontier.frontier == old(frontier.frontier) + [Child(state, node, action)] &&
          frontier.frontierStates == old(frontier.frontierStates) + {state}
      ensures (state in old(frontier.frontierStates) || state in explored) <==>
        (state in old(States(frontier.frontier)) || state in explored)
      ensures old(States(frontier.frontier)) <= States(frontier.frontier)
      ensures state in explored + States(frontier.frontier)
      ensures |frontier.frontier| >= old(|frontier.frontier|)
    {
      var inFrontier := frontier.ContainsState(state);
      if !inFrontier && state !in explored {
        EnqueueKeepsInv(grid, frontier.frontier, frontier.frontierStates, explored, node, action, state);
        frontier.Add(Child(state, node, action));
      }
    }

    /**
     * Offers every neighbour of `node`'s state to the frontier, in neighbour order.
     */
    method EnqueueNeighbors(frontier: Frontier, node: Node)
      requires Searching(frontier) && ChainOk(grid, node)
      modifies frontier
      ensures Searching(frontier)
      ensures frontier.frontier ==
        old(frontier.frontier) + Appended(node, grid.Neighbors(node.state), old(frontier.frontierStates) + explored)
      ensures frontier.frontierStates ==
        old(frontier.frontierStates) + States(Appended(node, grid.Neighbors(node.state), old(frontier.frontierStates) + explored))
      ensures old(States(frontier.frontier)) <= States(frontier.frontier)
      ensures forall j :: 0 <= j < |grid.Neighbors(node.state)| ==>
        grid.Neighbors(node.state)[j].1 in explored + States(frontier.frontier)
      ensures |frontier.frontier| >= old(|frontier.frontier|)
    {
      ghost var f0, s0 := frontier.frontier, frontier.frontierStates;
      ghost var seen := s0 + explored;
      var neighbors := grid.ListNeighbors(node.state);
      for k := 0 to |neighbors|
        invariant Searching(frontier)
        invariant frontier.frontier == f0 + Appended(node, neighbors[..k], seen)
        invariant frontier.frontierStates == s0 + States(Appended(node, neighbors[..k], seen))
      {
        var (action, state) := neighbors[k];
        AppendedStep(node, neighbors, seen, k, f0, s0);
        Offer(frontier, node, action, state);
      }
      assert neighbors[..|neighbors|] == neighbors;
      AppendedCovers(grid, f0, s0, explored, node, neighbors);
    }

    /**
     * Marks `node`'s state explored and enqueues its unrecorded neighbours;
     * `node` has just left the frontier and is not the goal.
     */
    method Explore(frontier: Frontier, node: Node, ghost reached: set<Cell>)
      requires grid.Valid() && ChainOk(grid, node) && node.state !in explored
      requires SearchInv(grid, frontier.frontier, frontier.frontierStates, explored + {node.state})
      requires frontier.policy == Stack ==> frontier.LockStep()
      requires Closed(grid, explored, reached) && reached == explored + {node.state} + States(frontier.frontier)
      modifies this`explored, frontier
      ensures explored == old(explored) + {node.state}
      ensures Searching(frontier) && Closed(grid, explored, explored + States(frontier.frontier))
      ensures frontier.frontier ==
        old(frontier.frontier) + Appended(node, grid.Neighbors(node.state), old(frontier.frontierStates) + explored)
      ensures frontier.frontierStates ==
        old(frontier.frontierStates) + States(Appended(node, grid.Neighbors(node.state), old(frontier.frontierStates) + explored))
      ensures |frontier.frontier| >= old(|frontier.frontier|)
    {
      ghost var before := explored;
      explored := explored + {node.state};
      EnqueueNeighbors(frontier, node);
      ExpansionCloses(grid, before, node.state, reached, explored + States(frontier.frontier));
    }

    /**
     * One round of the search loop: gives up on an empty frontier; otherwise
     * removes a node and counts it, and returns it if it holds the goal or
     * explores it.
     */
    method Advance(frontier: Frontier) returns (round: Round)
      requires Searching(frontier) && Closed(grid, explored, explored + States(frontier.frontier))
      modifies this`explored, this`numExplored, frontier
      ensures round.Exhausted? ==>
        old(frontier.frontier) == [] && frontier.frontier == [] &&
        frontier.frontierStates == old(frontier.frontierStates) &&
        explored == old(explored) && numExplored == old(numExplored) &&
        (forall c :: Reachable(grid, c) <==> c in explored) && !Reachable(grid, grid.goal)
      ensures round.ReachedGoal? ==>
        explored == old(explored) && numExplored == old(numExplored) + 1 &&
        round.node.state == grid.goal && ChainOk(grid, round.node) && |explored| < |grid.OpenCells()|
      ensures round.Expanded? ==>
        numExplored == old(numExplored) + 1 &&
        Searching(frontier) && Closed(grid, explored, explored + States(frontier.frontier)) &&
        |explored| == old(|explored|) + 1 && |frontier.frontier| + 1 >= old(|frontier.frontier|) &&
        |explored| + |frontier.frontier| <= |grid.OpenCells()|
      ensures !round.Exhausted? ==>
        old(frontier.frontier) != [] && round.node == Next(frontier.policy, old(frontier.frontier))
      ensures round.ReachedGoal? ==>
        frontier.frontier == Rest(frontier.policy, old(frontier.frontier)) &&
        frontier.frontierStates == RecordAfter(frontier.policy, old(frontier.frontierStates), round.node.state)
      ensures round.Expanded? ==>
        var kept := RecordAfter(frontier.policy, old(frontier.frontierStates), round.node.state);
        var added := Appended(round.node, grid.Neighbors(round.node.state), kept + explored);
        round.node.state != grid.goal && explored == old(explored) + {round.node.state} &&
        frontier.frontier == Rest(frontier.policy, old(frontier.frontier)) + added &&
        frontier.frontierStates == kept + States(added)
    {
      var isEmpty := frontier.Empty();
      if isEmpty {
        ExhaustedSearch(grid, frontier.frontierStates, explored);
        return Exhausted;
      }
      ghost var front, recorded := frontier.frontier, frontier.frontierStates;
      SearchBound(grid, front, recorded, explored);
      var removed := frontier.Remove();
      var node := removed.value;
      numExplored := numExplored + 1;
      if node.state == grid.goal {
        return ReachedGoal(node);
      }
      ExploreKeepsInv(grid, frontier.policy, front, recorded, explored);
      Explore(frontier, node, explored + States(front));
      SearchBound(grid, frontier.frontier, frontier.frontierStates, explored);
      return Expanded(node);
    }

    /**
     * Searches from the start: depth-first with a stack frontier, or
     * breadth-first with a queue frontier when `useQueue` holds.
     */
    method Solve(useQueue: bool) returns (outcome: Outcome<SearchError>)
      requires grid.Valid()
      modifies this
      ensures explored <= grid.OpenCells() && grid.goal !in explored
      ensures forall c :: c in explored ==> Reachable(grid, c)
      ensures numExplored <= |grid.OpenCells()|
      ensures outcome.Pass? ==>
        solution.Some? && IsSolution(grid, solution.value) && numExplored == |explored| + 1
      ensures outcome.Fail? ==>
        outcome.error == NoSolution && solution == old(solution) && numExplored == |explored| &&
        (forall c :: Reachable(grid, c) ==> c in explored) && !Reachable(grid, grid.goal)
      ensures Reachable(grid, grid.goal) ==> outcome.Pass?
      ensures var run := SearchRun(grid, if useQueue then Queue else Stack);
        explored == run.explored && (outcome.Pass? <==> run.Found?) &&
        (run.Found? ==> solution == Some(Solution(ActionsOf(run.node), CellsOf(run.node))))
    {
      numExplored := 0;
      var start := Root(grid.start);
      var frontier := new Frontier(if useQueue then Queue else Stack);
      frontier.Add(start);
      explored := {};
      StatesAppend([], start);
      assert [] + [start] == [start];
      CardSubset({grid.start}, grid.OpenCells());

      while true
        invariant fresh(frontier)
        invariant Searching(frontier) && Closed(grid, explored, explored + States(frontier.frontier))
        invariant numExplored == |explored| && solution == old(solution)
        invariant |explored| + |frontier.frontier| <= |grid.OpenCells()|
        invariant frontier.policy == if useQueue then Queue else Stack
        invariant Run(grid, frontier.policy, frontier.frontier, frontier.frontierStates, explored) ==
          SearchRun(grid, frontier.policy)
        decreases |grid.OpenCells()| - |explored| - |frontier.frontier|, |frontier.frontier|
      {
        ghost var nodes, recorded, before := frontier.frontier, frontier.frontierStates, explored;
        var round := Advance(frontier);
        assert Run(grid, frontier.policy, nodes, recorded, before) == SearchRun(grid, frontier.policy);
        match round
        case Exhausted =>
          return Fail(NoSolution);
        case ReachedGoal(node) =>
          var actions, cells := Backtrack(node);
          GoalChainIsSolution(grid, node);
          solution := Some(Solution(actions, cells));
          return Pass;
        case Expanded(_) =>
      }
    }
  }
}
