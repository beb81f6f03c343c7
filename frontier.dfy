/**
 * The frontier of the search (maze/maze.py:15-56): a list of nodes plus a set
 * of their states for quick membership tests. One class stands for both
 * StackFrontier and QueueFrontier; its policy decides which end `Remove` takes.
 */
module Frontiers {
  import opened Wrappers
  import opened MazeGrid
  import opened Nodes

  /** Stack: last in, first out (depth-first). Queue: first in, first out (breadth-first). */
  datatype Policy = Stack | Queue

  /** EmptyFrontier: nothing to remove. StateNotRecorded: the popped node's state was missing from the set. */
  datatype FrontierError = EmptyFrontier | StateNotRecorded

  /** The states of the nodes in `nodes`. */
  ghost function States(nodes: seq<Node>): set<Cell>
  {
    set i | 0 <= i < |nodes| :: nodes[i].state
  }

  /** No two nodes of `nodes` share a state. */
  ghost predicate DistinctStates(nodes: seq<Node>)
  {
    forall i, j :: 0 <= i < j < |nodes| ==> nodes[i].state != nodes[j].state
  }

  lemma StatesAppend(nodes: seq<Node>, n: Node)
    ensures States(nodes + [n]) == States(nodes) + {n.state}
    ensures n.state !in States(nodes) && DistinctStates(nodes) ==> DistinctStates(nodes + [n])
  {
    assert forall i :: 0 <= i < |nodes| ==> (nodes + [n])[i] == nodes[i];
    assert (nodes + [n])[|nodes|].state == n.state;
  }

  /** The states of a concatenation are the states of its parts. */
  lemma StatesConcat(a: seq<Node>, b: seq<Node>)
    ensures States(a + b) == States(a) + States(b)
  {
    forall c | c in States(a + b)
      ensures c in States(a) + States(b)
    {
      var i :| 0 <= i < |a + b| && (a + b)[i].state == c;
      if i >= |a| {
        assert b[i - |a|].state == c;
      }
    }
    forall c | c in States(b)
      ensures c in States(a + b)
    {
      var i :| 0 <= i < |b| && b[i].state == c;
      assert (a + b)[|a| + i].state == c;
    }
    forall c | c in States(a)
      ensures c in States(a + b)
    {
      var i :| 0 <= i < |a| && a[i].state == c;
      assert (a + b)[i].state == c;
    }
  }

  /** A slice holds no state the whole list does not. */
  lemma StatesOfSlice(nodes: seq<Node>, lo: nat, hi: nat)
    requires lo <= hi <= |nodes|
    ensures States(nodes[lo..hi]) <= States(nodes)
  {
    forall c | c in States(nodes[lo..hi])
      ensures c in States(nodes)
    {
      var i :| 0 <= i < hi - lo && nodes[lo..hi][i].state == c;
      assert nodes[lo + i].state == c;
    }
  }

  /** Dropping the last node of a list with distinct states drops exactly its state. */
  lemma StatesDropLast(nodes: seq<Node>)
    requires |nodes| > 0 && DistinctStates(nodes)
    ensures States(nodes[..|nodes| - 1]) == States(nodes) - {nodes[|nodes| - 1].state}
    ensures DistinctStates(nodes[..|nodes| - 1])
  {
    var init := nodes[..|nodes| - 1];
    assert nodes == init + [nodes[|nodes| - 1]];
    StatesAppend(init, nodes[|nodes| - 1]);
  }

  /** Dropping the first node of a list with distinct states drops exactly its state. */
  lemma StatesDropFirst(nodes: seq<Node>)
    requires |nodes| > 0 && DistinctStates(nodes)
    ensures States(nodes[1..]) == States(nodes) - {nodes[0].state}
    ensures DistinctStates(nodes[1..])
  {
    assert forall i :: 1 <= i < |nodes| ==> nodes[1..][i - 1] == nodes[i];
    forall c | c in States(nodes) - {nodes[0].state}
      ensures c in States(nodes[1..])
    {
      var i :| 0 <= i < |nodes| && nodes[i].state == c;
      assert nodes[1..][i - 1].state == c;
    }
  }

  /** The node `policy` takes next from a non-empty list: the last for a stack, the first for a queue. */
  function Next(policy: Policy, nodes: seq<Node>): Node
    requires |nodes| > 0
  {
    match policy
    case Stack => nodes[|nodes| - 1]
    case Queue => nodes[0]
  }

  /** What is left of a non-empty list once `policy` has taken its next node. */
  function Rest(policy: Policy, nodes: seq<Node>): seq<Node>
    requires |nodes| > 0
  {
    match policy
    case Stack => nodes[..|nodes| - 1]
    case Queue => nodes[1..]
  }

  /** The record set once `policy` has taken a node holding `s`: a stack forgets `s`, a queue keeps it. */
  function RecordAfter(policy: Policy, recorded: set<Cell>, s: Cell): set<Cell>
  {
    match policy
    case Stack => recorded - {s}
    case Queue => recorded
  }

  class Frontier {
    const policy: Policy
    /** The nodes awaiting expansion, in insertion order. */
    var frontier: seq<Node>
    /** States recorded for membership tests. */
    var frontierStates: set<Cell>

    /** Every state in the list is recorded in the set (the set may hold more). */
    ghost predicate Valid()
      reads this
    {
      States(frontier) <= frontierStates
    }

    /** The set mirrors the list exactly, and the list has no repeated state. */
    ghost predicate LockStep()
      reads this
    {
      frontierStates == States(frontier) && DistinctStates(frontier)
    }

    constructor (policy: Policy)
      ensures this.policy == policy && frontier == [] && frontierStates == {}
      ensures Valid() && LockStep()
    {
      this.policy := policy;
      frontier := [];
      frontierStates := {};
    }

    /** Appends `node` and records its state; duplicates are not checked for. */
    method Add(node: Node)
      modifies this
      ensures frontier == old(frontier) + [node]
      ensures frontierStates == old(frontierStates) + {node.state}
      ensures old(Valid()) ==> Valid()
      ensures old(LockStep()) && node.state !in old(frontierStates) ==> LockStep()
    {
      StatesAppend(frontier, node);
      frontier := frontier + [node];
      frontierStates := frontierStates + {node.state};
    }

    /**
     * Whether `state` is recorded. When the record mirrors the list this is
     * exactly "some listed node holds `state`"; a valid frontier never
     * misses a listed state.
     */
    method ContainsState(state: Cell) returns (b: bool)
      ensures b <==> state in frontierStates
      ensures LockStep() ==> (b <==> state in States(frontier))
      ensures Valid() && state in States(frontier) ==> b
    {
      b := state in frontierStates;
    }

    method Empty() returns (b: bool)
      ensures b <==> |frontier| == 0
    {
      b := |frontier| == 0;
    }

    /**
     * Takes the policy's next node: the last for a stack, the first for a
     * queue. The stack variant also deletes the removed state from the set,
     * failing after the pop when the state is not there; the queue variant
     * leaves the set as it was.
     */
    method Remove() returns (r: Result<Node, FrontierError>)
      modifies this
      ensures old(frontier) == [] ==>
        r == Err(EmptyFrontier) && frontier == old(frontier) && frontierStates == old(frontierStates)
      ensures old(frontier) != [] ==>
        var node := Next(policy, old(frontier));
        r == (if policy == Stack && node.state !in old(frontierStates) then Err(StateNotRecorded) else Ok(node)) &&
        frontier == Rest(policy, old(frontier)) &&
        frontierStates == RecordAfter(policy, old(frontierStates), node.state)
      ensures old(frontier) != [] && old(Valid()) ==> r.Ok?
      ensures policy == Queue && old(Valid()) ==> Valid()
      ensures policy == Stack && old(LockStep()) ==> LockStep()
    {
      var isEmpty := Empty();
      if isEmpty {
        return Err(EmptyFrontier);
      }
      match policy
      case Stack =>
        var node := frontier[|frontier| - 1];
        if LockStep() {
          StatesDropLast(frontier);
        }
        frontier := frontier[..|frontier| - 1];
        if node.state in frontierStates {
          frontierStates := frontierStates - {node.state};
          r := Ok(node);
        } else {
          r := Err(StateNotRecorded);
        }
      case Queue =>
        var node := frontier[0];
        StatesOfSlice(frontier, 1, |frontier|);
        frontier := frontier[1..];
        r := Ok(node);
    }
  }
}
