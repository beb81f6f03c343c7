/**
 * Search-tree nodes (maze/maze.py, class Node) and the walk back along the
 * parent chain that turns a goal node into a solution (maze/maze.py:174-181).
 */
module Nodes {
  import opened MazeGrid

  /**
   * A node of the search tree. Nodes are never changed after creation, so a
   * node is a value: the root carries the start state and neither parent nor
   * action; every other node carries its parent and the action from it.
   */
  datatype Node = Root(state: Cell) | Child(state: Cell, parent: Node, action: Action)

  /** Actions along the chain, from the root's first child down to `n`. */
  function ActionsOf(n: Node): seq<Action>
  {
    match n
    case Root(_) => []
    case Child(_, p, a) => ActionsOf(p) + [a]
  }

  /** States along the chain, root excluded, down to `n`. */
  function CellsOf(n: Node): seq<Cell>
  {
    match n
    case Root(_) => []
    case Child(s, p, _) => CellsOf(p) + [s]
  }

  function Reverse<T>(s: seq<T>): (r: seq<T>)
    ensures |r| == |s|
  {
    if s == [] then [] else Reverse(s[1..]) + [s[0]]
  }

  lemma {:induction false} ReverseAppend<T>(s: seq<T>, x: T)
    ensures Reverse(s + [x]) == [x] + Reverse(s)
  {
    if s != [] {
      assert (s + [x])[1..] == s[1..] + [x];
      ReverseAppend(s[1..], x);
    }
  }

  lemma {:induction false} ReverseReverse<T>(s: seq<T>)
    ensures Reverse(Reverse(s)) == s
  {
    if s != [] {
      ReverseAppend(Reverse(s[1..]), s[0]);
      ReverseReverse(s[1..]);
    }
  }

  /**
   * Follows parent links from `node` to the root, collecting each non-root
   * node's action and state, then reverses both lists into root-to-node order.
   */
  method Backtrack(node: Node) returns (actions: seq<Action>, cells: seq<Cell>)
    ensures actions == ActionsOf(node) && cells == CellsOf(node)
  {
    var n := node;
    actions, cells := [], [];
    while n.Child?
      invariant ActionsOf(node) == ActionsOf(n) + Reverse(actions)
      invariant CellsOf(node) == CellsOf(n) + Reverse(cells)
      decreases n
    {
      ReverseAppend(actions, n.action);
      ReverseAppend(cells, n.state);
      actions := actions + [n.action];
      cells := cells + [n.state];
      n := n.parent;
    }
    ReverseReverse(actions);
    ReverseReverse(cells);
    actions := Reverse(actions);
    cells := Reverse(cells);
  }
}
