/** The search nodes and the two frontiers of the maze scripts (algorithms/1_pathfinding/maze.py
    and algorithms/maze/maze.py). A node's `parent` reference is the position of the parent
    among the nodes the search has expanded so far. */
module MazeFrontier {

  import opened PyCore
  import opened MazeCells

  /** The distances A* stores: whole numbers, and `float('+inf')` for a node not reached. */
  datatype Dist = Finite(n: nat) | Infinity

  /** Python's `<` between two such distances. */
  predicate Less(a: Dist, b: Dist) {
    match (a, b)
    case (Finite(m), Finite(n)) => m < n
    case (Finite(_), Infinity) => true
    case (Infinity, _) => false
  }

  /** `d + 1`: infinity stays infinity. */
  function AddOne(d: Dist): (r: Dist)
    ensures d.Finite? <==> r.Finite?
    ensures d.Finite? ==> r.n == d.n + 1
  {
    match d
    case Finite(n) => Finite(n + 1)
    case Infinity => Infinity
  }

  /** `Node` and its subclass `AStarNode`, whose constructor defaults both distances to
      infinity and `visited` to false. */
  datatype SearchNode =
    | Node(state: Coord, parent: Option<nat>)
    | AStarNode(state: Coord, parent: Option<nat>, localDist: Dist, globalDist: Dist, visited: bool)

  /** The states of some nodes, in order. */
  function States(nodes: seq<SearchNode>): (r: seq<Coord>)
    ensures |r| == |nodes| && forall i :: 0 <= i < |nodes| ==> r[i] == nodes[i].state
  {
    seq(|nodes|, i requires 0 <= i < |nodes| => nodes[i].state)
  }

  /** The generator in `contains`: does some node, from the i-th on, hold `s`? */
  function AnyState(nodes: seq<SearchNode>, s: Coord, i: nat): (b: bool)
    requires i <= |nodes|
    ensures b <==> exists j :: i <= j < |nodes| && nodes[j].state == s
    decreases |nodes| - i
  {
    if i == |nodes| then false
    else if nodes[i].state == s then true
    else AnyState(nodes, s, i + 1)
  }

  /** The position `min(..., key=lambda n: n.global_dist)` picks among the nodes from the
      i-th on, `best` being the minimum so far: a later node replaces it only when it is
      strictly smaller. */
  function MinFrom(nodes: seq<SearchNode>, best: nat, i: nat): (m: nat)
    requires AllAStar(nodes) && best < i <= |nodes|
    ensures best <= m < |nodes| && (m == best || i <= m)
    decreases |nodes| - i
  {
    if i == |nodes| then best
    else if Less(nodes[i].globalDist, nodes[best].globalDist) then MinFrom(nodes, i, i + 1)
    else MinFrom(nodes, best, i + 1)
  }

  /** Nodes that all carry distances. */
  predicate AllAStar(nodes: seq<SearchNode>) {
    forall i :: 0 <= i < |nodes| ==> nodes[i].AStarNode?
  }

  /** No node has a smaller global distance than the m-th, and every node before it has a
      larger one. */
  predicate FirstMinimum(nodes: seq<SearchNode>, m: nat)
    requires AllAStar(nodes)
  {
    m < |nodes|
    && (forall j :: 0 <= j < |nodes| ==> !Less(nodes[j].globalDist, nodes[m].globalDist))
    && (forall j :: 0 <= j < m ==> Less(nodes[m].globalDist, nodes[j].globalDist))
  }

  lemma LessTotal(a: Dist, b: Dist, c: Dist)
    ensures !Less(a, a)
    ensures Less(a, b) && Less(b, c) ==> Less(a, c)
    ensures !Less(a, b) && !Less(b, c) ==> !Less(a, c)
    ensures !Less(a, b) ==> a == b || Less(b, a)
  {
  }

  /** `min` picks the first node of least global distance. */
  lemma {:induction false} MinFromSpec(nodes: seq<SearchNode>, best: nat, i: nat)
    requires AllAStar(nodes) && best < i <= |nodes|
    requires forall j :: 0 <= j < i ==> !Less(nodes[j].globalDist, nodes[best].globalDist)
    requires forall j :: 0 <= j < best ==> Less(nodes[best].globalDist, nodes[j].globalDist)
    ensures FirstMinimum(nodes, MinFrom(nodes, best, i))
    decreases |nodes| - i
  {
    if i < |nodes| {
      var d := nodes[i].globalDist;
      if Less(d, nodes[best].globalDist) {
        forall j | 0 <= j < i + 1
          ensures !Less(nodes[j].globalDist, d)
          ensures j < i ==> Less(d, nodes[j].globalDist)
        {
          LessTotal(nodes[j].globalDist, nodes[best].globalDist, d);
          LessTotal(d, nodes[best].globalDist, nodes[j].globalDist);
        }
        MinFromSpec(nodes, i, i + 1);
      } else {
        MinFromSpec(nodes, best, i + 1);
      }
    }
  }

  /** The first node of least global distance, for a non-empty list. */
  function FirstMin(nodes: seq<SearchNode>): (m: nat)
    requires AllAStar(nodes) && nodes != []
    ensures FirstMinimum(nodes, m)
  {
    LessTotal(nodes[0].globalDist, nodes[0].globalDist, nodes[0].globalDist);
    MinFromSpec(nodes, 0, 1);
    MinFrom(nodes, 0, 1)
  }

  /** `StackFrontier` (`queue` false) and `QueueFrontier` (`queue` true): the nodes waiting
      to be expanded. */
  class Frontier {
    var data: seq<SearchNode>
    const queue: bool

    constructor(queue: bool)
      ensures data == [] && this.queue == queue
    {
      data := [];
      this.queue := queue;
    }

    /** `contains`: some stored node holds the state. */
    function Contains(s: Coord): (b: bool)
      reads this
      ensures b <==> s in States(data)
    {
      AnyState(data, s, 0)
    }

    /** `empty`. */
    function Empty(): (b: bool)
      reads this
      ensures b <==> |data| == 0
    {
      data == []
    }

    /** `push`: append the node. */
    method Push(node: SearchNode)
      modifies this
      ensures data == old(data) + [node]
    {
      data := data + [node];
    }

    /** `pop`: the queue gives the oldest node back, the stack the newest; both raise
      `IndexError` when empty. */
    method Pop() returns (r: Outcome<SearchNode>)
      modifies this
      ensures old(data) == [] ==> r == Raise(IndexError) && data == old(data)
      ensures old(data) != [] && queue ==> r == Return(old(data)[0]) && data == old(data)[1..]
      ensures old(data) != [] && !queue ==>
        r == Return(old(data)[|old(data)| - 1]) && data == old(data)[..|old(data)| - 1]
    {
      if data == [] {
        return Raise(IndexError);
      }
      if queue {
        r := Return(data[0]);
        data := data[1..];
      } else {
        r := Return(data[|data| - 1]);
        data := data[..|data| - 1];
      }
    }

    /** The end of `astar_search`'s loop: the first node of least global distance, found by
      `min`, is removed and inserted back at the front; the others keep their order. */
    method MoveMinimumToHead()
      requires data != [] && AllAStar(data)
      modifies this
      ensures data == Rotated(old(data), FirstMin(old(data)))
    {
      var m := MinIndex(data);
      data := [data[m]] + data[..m] + data[m + 1..];
    }
  }

  /** `remove` of the m-th node followed by `insert(0, ...)`: the m-th node first, then the
      others in their order. */
  function Rotated(nodes: seq<SearchNode>, m: nat): (r: seq<SearchNode>)
    requires m < |nodes|
    ensures |r| == |nodes| && r[0] == nodes[m]
    ensures forall i :: 0 < i <= m ==> r[i] == nodes[i - 1]
    ensures forall i :: m < i < |nodes| ==> r[i] == nodes[i]
  {
    [nodes[m]] + nodes[..m] + nodes[m + 1..]
  }

  /** Moving a node to the front loses and adds nothing. */
  lemma RotatedPermutes(nodes: seq<SearchNode>, m: nat)
    requires m < |nodes|
    ensures multiset(Rotated(nodes, m)) == multiset(nodes)
  {
    assert nodes == nodes[..m] + [nodes[m]] + nodes[m + 1..];
  }

  /** After `astar_search` moves the first node of least global distance to the front, the
      node the next `pop` takes is one of least global distance. */
  lemma HeadIsMinimum(nodes: seq<SearchNode>)
    requires nodes != [] && AllAStar(nodes)
    ensures AllAStar(Rotated(nodes, FirstMin(nodes)))
    ensures FirstMinimum(Rotated(nodes, FirstMin(nodes)), 0)
  {
    var m := FirstMin(nodes);
    var r := Rotated(nodes, m);
    forall j | 0 <= j < |r|
      ensures r[j].AStarNode? && !Less(r[j].globalDist, r[0].globalDist)
    {
      var i := if j == 0 then m else if j <= m then j - 1 else j;
      assert r[j] == nodes[i];
    }
  }

  /** `min(frontier.data, key=lambda n: n.global_dist)`, as the position of the node it
      returns: the first node of least global distance. */
  method MinIndex(nodes: seq<SearchNode>) returns (m: nat)
    requires nodes != [] && AllAStar(nodes)
    ensures m == FirstMin(nodes)
  {
    m := 0;
    var i := 1;
    while i < |nodes|
      invariant m < i <= |nodes|
      invariant MinFrom(nodes, m, i) == MinFrom(nodes, 0, 1)
    {
      if Less(nodes[i].globalDist, nodes[m].globalDist) {
        m := i;
      }
      i := i + 1;
    }
  }
}
