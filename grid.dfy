/**
 * The logical maze: its dimensions, the wall grid, the start and goal cells,
 * and the neighbour function that drives the search (maze/maze.py, Maze.neighbors).
 */
module MazeGrid {

  /** A position (row, column); row 0 is the first line of the maze text. */
  datatype Cell = Cell(row: int, col: int)

  /** The four orthogonal moves, in the order the neighbour function tries them. */
  datatype Action = Up | Down | Left | Right

  /** Position of an action in the fixed candidate order up, down, left, right. */
  function Rank(a: Action): nat
  {
    match a
    case Up => 0
    case Down => 1
    case Left => 2
    case Right => 3
  }

  /** The cell one step from `c` in direction `a`. */
  function Move(c: Cell, a: Action): Cell
  {
    match a
    case Up => Cell(c.row - 1, c.col)
    case Down => Cell(c.row + 1, c.col)
    case Left => Cell(c.row, c.col - 1)
    case Right => Cell(c.row, c.col + 1)
  }

  function Abs(x: int): nat
  {
    if x < 0 then -x else x
  }

  /** The wall grid (`true` = wall) with its start and goal. */
  datatype Grid = Grid(height: nat, width: nat, walls: seq<seq<bool>>, start: Cell, goal: Cell)
  {
    /** `walls` is a `height` x `width` rectangle. */
    predicate Shaped()
    {
      |walls| == height && forall i :: 0 <= i < |walls| ==> |walls[i]| == width
    }

    predicate InBounds(c: Cell)
    {
      0 <= c.row < height && 0 <= c.col < width
    }

    /** Inside the grid and not a wall. */
    predicate Open(c: Cell)
      requires Shaped()
    {
      InBounds(c) && !walls[c.row][c.col]
    }

    /** What the loader guarantees: start and goal are distinct open cells. */
    predicate Valid()
    {
      Shaped() && Open(start) && Open(goal) && start != goal
    }

    /** Every open cell of the grid. */
    ghost function OpenCells(): (s: set<Cell>)
      requires Shaped()
      ensures forall c :: c in s <==> Open(c)
    {
      set r, k | 0 <= r < height && 0 <= k < width && !walls[r][k] :: Cell(r, k)
    }

    /**
     * The open, in-bounds orthogonal neighbours of `c`, each paired with the
     * action that reaches it, in the candidate order up, down, left, right.
     */
    function Neighbors(c: Cell): (r: seq<(Action, Cell)>)
      requires Shaped()
      ensures forall k :: 0 <= k < |r| ==> r[k].1 == Move(c, r[k].0) && Open(r[k].1)
      ensures forall a: Action :: Open(Move(c, a)) ==> (a, Move(c, a)) in r
    {
      Candidate(c, Up) + Candidate(c, Down) + Candidate(c, Left) + Candidate(c, Right)
    }

    /** The one-element list for move `a` from `c` when it lands on an open cell, else empty. */
    function Candidate(c: Cell, a: Action): seq<(Action, Cell)>
      requires Shaped()
    {
      var n := Move(c, a);
      if Open(n) then [(a, n)] else []
    }

    /** The open moves among the first `i` candidates of `c`. */
    function OpenAmong(c: Cell, i: nat): seq<(Action, Cell)>
      requires Shaped() && i <= |Order|
    {
      if i == 0 then [] else OpenAmong(c, i - 1) + Candidate(c, Order[i - 1])
    }

    /**
     * Walks the four candidate moves of `c` in order and keeps those that
     * land inside the grid on a non-wall cell.
     */
    method ListNeighbors(c: Cell) returns (result: seq<(Action, Cell)>)
      requires Shaped()
      ensures result == Neighbors(c)
    {
      var candidates := [(Up, Move(c, Up)), (Down, Move(c, Down)), (Left, Move(c, Left)), (Right, Move(c, Right))];
      result := [];
      for i := 0 to |candidates|
        invariant result == OpenAmong(c, i)
      {
        var (action, n) := candidates[i];
        assert (action, n) == (Order[i], Move(c, Order[i]));
        if 0 <= n.row < height && 0 <= n.col < width && !walls[n.row][n.col] {
          result := result + [(action, n)];
        }
      }
      assert OpenAmong(c, 1) == Candidate(c, Up);
      assert OpenAmong(c, 2) == Candidate(c, Up) + Candidate(c, Down);
      assert OpenAmong(c, 3) == Candidate(c, Up) + Candidate(c, Down) + Candidate(c, Left);
    }
  }

  /** The order in which the neighbour function tries the moves. */
  const Order: seq<Action> := [Up, Down, Left, Right]

  /** The neighbour list follows the candidate order up, down, left, right. */
  lemma NeighborsInOrder(g: Grid, c: Cell)
    requires g.Shaped()
    ensures forall k, l :: 0 <= k < l < |g.Neighbors(c)| ==> Rank(g.Neighbors(c)[k].0) < Rank(g.Neighbors(c)[l].0)
  {
  }

  /**
   * Independent description of a legal step: `b` is open and at Manhattan
   * distance one from `a`.
   */
  ghost predicate Adjacent(g: Grid, a: Cell, b: Cell)
    requires g.Shaped()
  {
    g.Open(b) && Abs(a.row - b.row) + Abs(a.col - b.col) == 1
  }

  /** The neighbour list contains exactly the adjacent cells. */
  lemma NeighborsAreAdjacent(g: Grid, a: Cell, b: Cell)
    requires g.Shaped()
    ensures (exists act :: (act, b) in g.Neighbors(a)) <==> Adjacent(g, a, b)
  {
    if Adjacent(g, a, b) {
      var act :=
        if b.row == a.row - 1 then Up
        else if b.row == a.row + 1 then Down
        else if b.col == a.col - 1 then Left
        else Right;
      assert b == Move(a, act);
      assert (act, b) in g.Neighbors(a);
    }
  }

  /** A walk through open cells that starts at the start cell. */
  ghost predicate IsPath(g: Grid, p: seq<Cell>)
    requires g.Shaped()
  {
    |p| > 0 && p[0] == g.start &&
    forall i :: 0 < i < |p| ==> Adjacent(g, p[i - 1], p[i])
  }

  /** `c` is reachable from the start. */
  ghost predicate Reachable(g: Grid, c: Cell)
    requires g.Shaped()
  {
    exists p {:trigger IsPath(g, p)} :: IsPath(g, p) && p[|p| - 1] == c
  }

  /** Every adjacent cell of a cell in `s` lies in `t`. */
  ghost predicate Closed(g: Grid, s: set<Cell>, t: set<Cell>)
    requires g.Shaped()
  {
    forall a, b {:trigger Adjacent(g, a, b)} :: a in s && Adjacent(g, a, b) ==> b in t
  }

  lemma {:induction false} PathStaysInClosedSet(g: Grid, s: set<Cell>, p: seq<Cell>)
    requires g.Shaped() && g.start in s && Closed(g, s, s)
    requires IsPath(g, p)
    ensures forall i :: 0 <= i < |p| ==> p[i] in s
  {
    if |p| > 1 {
      var q := p[..|p| - 1];
      assert IsPath(g, q);
      PathStaysInClosedSet(g, s, q);
      assert p[|p| - 2] == q[|q| - 1];
    }
  }

  /** A set that holds the start and is closed under steps holds every reachable cell. */
  lemma ClosedSetHoldsReachable(g: Grid, s: set<Cell>, c: Cell)
    requires g.Shaped() && g.start in s && Closed(g, s, s)
    requires Reachable(g, c)
    ensures c in s
  {
    var p :| IsPath(g, p) && p[|p| - 1] == c;
    PathStaysInClosedSet(g, s, p);
  }
}
