/** The distances of `astar_search` in algorithms/1_pathfinding/maze.py: every node it
    creates carries, as `local_dist`, the number of steps of its parent chain and, as
    `global_dist`, that number plus the Manhattan distance to the goal; the frontier is
    kept with a node of least global distance at its front. */
module MazeAStar {

  import opened PyCore
  import opened MazeCells
  import opened MazeGrid
  import opened MazeFrontier
  import opened MazeChains

  /** `d + h` for a heuristic value h: infinity stays infinity. */
  function Plus(d: Dist, h: nat): (r: Dist)
    ensures d.Finite? <==> r.Finite?
    ensures d.Finite? ==> r.n == d.n + h
  {
    match d
    case Finite(n) => Finite(n + h)
    case Infinity => Infinity
  }

  /** A node with its distances set: a finite local distance, zero without a parent and
      one more than the parent's otherwise, and the global distance that adds the
      heuristic to the goal. */
  predicate Scored(arena: seq<SearchNode>, goal: Coord, n: SearchNode) {
    n.AStarNode? && n.localDist.Finite?
    && n.globalDist == Finite(n.localDist.n + Heuristic(n.state, goal))
    && match n.parent
       case None => n.localDist.n == 0
       case Some(p) =>
         p < |arena| && arena[p].AStarNode? && arena[p].localDist.Finite?
         && n.localDist.n == arena[p].localDist.n + 1
  }

  predicate AllScored(arena: seq<SearchNode>, goal: Coord, nodes: seq<SearchNode>) {
    forall k :: 0 <= k < |nodes| ==> Scored(arena, goal, nodes[k])
  }

  /** The state of `astar_search` between two expansions, on top of the one both searches
      keep: every node scored, and a node of least global distance at the front. */
  ghost predicate AStarState(g: Grid, start: Coord, goal: Coord, arena: seq<SearchNode>,
                             frontier: seq<SearchNode>, visited: set<Coord>)
  {
    SearchState(g, start, goal, arena, frontier, visited)
    && Closed(g, visited, frontier, None)
    && AllScored(arena, goal, arena) && AllScored(arena, goal, frontier)
    && AllAStar(frontier) && (frontier != [] ==> FirstMinimum(frontier, 0))
  }

  /** The local distance of a scored node is the length of the path its parents spell. */
  lemma {:induction false} LocalDistIsChainLength(arena: seq<SearchNode>, goal: Coord, n: SearchNode)
    requires Linked(arena) && LinkedBelow(n, |arena|)
    requires AllScored(arena, goal, arena) && Scored(arena, goal, n)
    ensures n.localDist == Finite(|ChainOf(arena, n)|)
    ensures n.globalDist == Finite(|ChainOf(arena, n)| + Heuristic(n.state, goal))
    decreases if n.parent.Some? then n.parent.value + 1 else 0
  {
    if n.parent.Some? {
      LocalDistIsChainLength(arena, goal, arena[n.parent.value]);
    }
  }

  /** The global distance never overestimates: it is at most the length of any walk from
      the start through the node's own path on to the goal. */
  lemma GlobalDistAdmissible(g: Grid, start: Coord, goal: Coord, arena: seq<SearchNode>,
                             n: SearchNode, rest: seq<Coord>)
    requires Linked(arena) && LinkedBelow(n, |arena|)
    requires AllScored(arena, goal, arena) && Scored(arena, goal, n)
    requires Shaped(g) && Walk(g, n.state, rest, goal)
    ensures n.globalDist.Finite? && n.globalDist.n <= |ChainOf(arena, n)| + |rest|
  {
    LocalDistIsChainLength(arena, goal, n);
    HeuristicAdmissible(g, n.state, rest, goal);
  }

  // ---- the node `astar_search` pushes

  /** `AStarNode(s, node)` and the `dist_to_neighbour < n.local_dist` branch for the neighbour
      t of the node just expanded, the last in `arena`. */
  function Neighbour(arena: seq<SearchNode>, goal: Coord, t: Coord): (n: SearchNode)
    requires arena != [] && arena[|arena| - 1].AStarNode?
  {
    var parent := |arena| - 1;
    var created := AStarNode(t, Some(parent), Infinity, Infinity, false);
    var dist := AddOne(arena[parent].localDist);
    if Less(dist, created.localDist) then
      created.(parent := Some(parent), localDist := dist, globalDist := Plus(dist, Heuristic(t, goal)))
    else created
  }

  /** Since the expanded node's distance is finite, the branch is always taken: the new node
      hangs off it, one step further from the start. */
  lemma NeighbourScored(arena: seq<SearchNode>, goal: Coord, t: Coord)
    requires arena != [] && arena[|arena| - 1].AStarNode? && arena[|arena| - 1].localDist.Finite?
    ensures var n := Neighbour(arena, goal, t);
      n.state == t && n.parent == Some(|arena| - 1) && Scored(arena, goal, n)
      && n.localDist == Finite(arena[|arena| - 1].localDist.n + 1)
  {
  }

  // ---- keeping the scores

  lemma ScoredWiden(arena: seq<SearchNode>, goal: Coord, m: SearchNode, n: SearchNode)
    requires Scored(arena, goal, n)
    ensures Scored(arena + [m], goal, n)
  {
    if n.parent.Some? {
      assert (arena + [m])[n.parent.value] == arena[n.parent.value];
    }
  }

  /** The popped node joins the expanded ones; all scores survive. */
  lemma ScoredAfterPop(arena: seq<SearchNode>, goal: Coord, frontier: seq<SearchNode>, k: nat)
    requires k < |frontier| && AllScored(arena, goal, arena) && AllScored(arena, goal, frontier)
    ensures var arena' := arena + [frontier[k]];
      AllScored(arena', goal, arena') && AllScored(arena', goal, frontier[..k] + frontier[k + 1..])
      && Scored(arena, goal, frontier[k])
  {
    ScoredArenaSnoc(arena, goal, frontier[k]);
    ScoredRest(arena, goal, frontier, k);
  }

  lemma ScoredArenaSnoc(arena: seq<SearchNode>, goal: Coord, n: SearchNode)
    requires AllScored(arena, goal, arena) && Scored(arena, goal, n)
    ensures AllScored(arena + [n], goal, arena + [n])
  {
    var arena' := arena + [n];
    forall i | 0 <= i < |arena'|
      ensures Scored(arena', goal, arena'[i])
    {
      if i < |arena| {
        ScoredWiden(arena, goal, n, arena[i]);
      } else {
        ScoredWiden(arena, goal, n, n);
      }
    }
  }

  lemma ScoredRest(arena: seq<SearchNode>, goal: Coord, frontier: seq<SearchNode>, k: nat)
    requires k < |frontier| && AllScored(arena, goal, frontier)
    ensures AllScored(arena + [frontier[k]], goal, frontier[..k] + frontier[k + 1..])
  {
    var rest := frontier[..k] + frontier[k + 1..];
    forall j | 0 <= j < |rest|
      ensures Scored(arena + [frontier[k]], goal, rest[j])
    {
      var orig := if j < k then j else j + 1;
      assert rest[j] == frontier[orig];
      ScoredWiden(arena, goal, frontier[k], frontier[orig]);
    }
  }

  lemma ScoredPush(arena: seq<SearchNode>, goal: Coord, nodes: seq<SearchNode>, n: SearchNode)
    requires AllScored(arena, goal, nodes) && Scored(arena, goal, n)
    ensures AllScored(arena, goal, nodes + [n]) && AllAStar(nodes + [n])
    ensures AllAStar(nodes) ==> AllAStar(nodes + [n])
  {
  }

  lemma ScoredAreAStar(arena: seq<SearchNode>, goal: Coord, nodes: seq<SearchNode>)
    requires AllScored(arena, goal, nodes)
    ensures AllAStar(nodes)
  {
    forall k | 0 <= k < |nodes|
      ensures nodes[k].AStarNode?
    {
      assert Scored(arena, goal, nodes[k]);
    }
  }

  // ---- moving the least node to the front

  /** Where the i-th node of `Rotated(nodes, m)` came from. */
  function Origin(m: nat, i: nat): nat {
    if i == 0 then m else if i <= m then i - 1 else i
  }

  lemma RotatedOrigins(nodes: seq<SearchNode>, m: nat)
    requires m < |nodes|
    ensures forall i :: 0 <= i < |nodes| ==> Origin(m, i) < |nodes| && Rotated(nodes, m)[i] == nodes[Origin(m, i)]
    ensures forall i, j :: 0 <= i < j < |nodes| ==> Origin(m, i) != Origin(m, j)
    ensures forall j :: 0 <= j < |nodes| ==> nodes[j] in Rotated(nodes, m)
  {
    var r := Rotated(nodes, m);
    forall j | 0 <= j < |nodes|
      ensures nodes[j] in r
    {
      var i := if j == m then 0 else if j < m then j + 1 else j;
      assert r[i] == nodes[j];
    }
  }

  lemma RotatedNodes(g: Grid, start: Coord, goal: Coord, arena: seq<SearchNode>,
                     nodes: seq<SearchNode>, m: nat)
    requires Shaped(g) && m < |nodes|
    requires NodesOK(g, start, arena, nodes) && AllScored(arena, goal, nodes)
    ensures NodesOK(g, start, arena, Rotated(nodes, m)) && AllScored(arena, goal, Rotated(nodes, m))
  {
    RotatedOrigins(nodes, m);
  }

  lemma RotatedStates(nodes: seq<SearchNode>, visited: set<Coord>, m: nat)
    requires m < |nodes| && DistinctStates(nodes) && Unvisited(nodes, visited)
    ensures DistinctStates(Rotated(nodes, m)) && Unvisited(Rotated(nodes, m), visited)
    ensures forall c :: c in States(nodes) ==> c in States(Rotated(nodes, m))
  {
    RotatedDistinct(nodes, m);
    RotatedUnvisited(nodes, visited, m);
    RotatedKeepsStates(nodes, m);
  }

  lemma RotatedDistinct(nodes: seq<SearchNode>, m: nat)
    requires m < |nodes| && DistinctStates(nodes)
    ensures DistinctStates(Rotated(nodes, m))
  {
    var r := Rotated(nodes, m);
    RotatedOrigins(nodes, m);
    forall i, j | 0 <= i < j < |r|
      ensures r[i].state != r[j].state
    {
      var a, b := Origin(m, i), Origin(m, j);
      if a < b {
        assert nodes[a].state != nodes[b].state;
      } else {
        assert nodes[b].state != nodes[a].state;
      }
    }
  }

  lemma RotatedUnvisited(nodes: seq<SearchNode>, visited: set<Coord>, m: nat)
    requires m < |nodes| && Unvisited(nodes, visited)
    ensures Unvisited(Rotated(nodes, m), visited)
  {
    RotatedOrigins(nodes, m);
  }

  lemma RotatedKeepsStates(nodes: seq<SearchNode>, m: nat)
    requires m < |nodes|
    ensures forall c :: c in States(nodes) ==> c in States(Rotated(nodes, m))
  {
    var r := Rotated(nodes, m);
    forall c | c in States(nodes)
      ensures c in States(r)
    {
      var j :| 0 <= j < |nodes| && nodes[j].state == c;
      var i := if j == m then 0 else if j < m then j + 1 else j;
      assert r[i].state == c;
    }
  }

  lemma RotatedClosed(g: Grid, visited: set<Coord>, nodes: seq<SearchNode>, r: seq<SearchNode>)
    requires Shaped(g) && Closed(g, visited, nodes, None)
    requires forall c :: c in States(nodes) ==> c in States(r)
    ensures Closed(g, visited, r, None)
  {
    forall u | u in visited
      ensures Covered(g, visited, r, u)
    {
      assert Covered(g, visited, nodes, u);
    }
  }

  /** The end of a turn of `astar_search`'s loop: once the first node of least global
      distance is moved to the front, everything the search keeps still holds. */
  lemma RotatedState(g: Grid, start: Coord, goal: Coord, arena: seq<SearchNode>,
                     nodes: seq<SearchNode>, visited: set<Coord>)
    requires SearchState(g, start, goal, arena, nodes, visited) && Closed(g, visited, nodes, None)
    requires AllScored(arena, goal, arena) && AllScored(arena, goal, nodes)
    requires nodes != [] && AllAStar(nodes)
    ensures AStarState(g, start, goal, arena, Rotated(nodes, FirstMin(nodes)), visited)
  {
    var m := FirstMin(nodes);
    var r := Rotated(nodes, m);
    RotatedNodes(g, start, goal, arena, nodes, m);
    RotatedStates(nodes, visited, m);
    RotatedClosed(g, visited, nodes, r);
    HeadIsMinimum(nodes);
  }

  // ---- the loop

  /** The `for` loop over `find_new_states` of the node just expanded, the last in `arena`:
      each neighbour neither visited nor in the frontier gets a node scored one step further
      than that node. */
  method PushScored(frontier: Frontier, g: Grid, s: Coord, gl: Coord,
                    arena: seq<SearchNode>, visited: set<Coord>)
    requires SearchState(g, s, gl, arena, frontier.data, visited) && arena != []
    requires Closed(g, visited, frontier.data, Some(arena[|arena| - 1].state))
    requires AllScored(arena, gl, arena) && AllScored(arena, gl, frontier.data)
    requires arena[|arena| - 1].AStarNode? && arena[|arena| - 1].localDist.Finite?
    modifies frontier
    ensures SearchState(g, s, gl, arena, frontier.data, visited)
    ensures Closed(g, visited, frontier.data, None)
    ensures AllScored(arena, gl, frontier.data)
  {
    var v := arena[|arena| - 1].state;
    var states := FindNewStates(g, v);
    var j := 0;
    while j < |states|
      invariant 0 <= j <= |states| && states == NewStates(g, v)
      invariant SearchState(g, s, gl, arena, frontier.data, visited)
      invariant Closed(g, visited, frontier.data, Some(v))
      invariant CoveredUpTo(g, visited, frontier.data, v, j)
      invariant AllScored(arena, gl, frontier.data)
    {
      var t := states[j];
      var n := Neighbour(arena, gl, t);
      NeighbourScored(arena, gl, t);
      if t !in visited && !frontier.Contains(t) {
        PushState(g, s, gl, arena, frontier.data, visited, j, n);
        ScoredPush(arena, gl, frontier.data, n);
        frontier.Push(n);
      } else {
        SkipState(g, visited, frontier.data, v, j);
      }
      j := j + 1;
    }
    FinishState(g, visited, frontier.data, v);
  }

  /** One turn of `astar_search`'s loop: the front node leaves the frontier; it is returned
      when it holds the goal, and otherwise expanded, after which a node of least global
      distance is moved to the front. */
  method AStarExpandNext(frontier: Frontier, g: Grid, s: Coord, gl: Coord,
                         arena: seq<SearchNode>, visited: set<Coord>)
      returns (found: Option<SearchNode>, arena': seq<SearchNode>, visited': set<Coord>)
    requires AStarState(g, s, gl, arena, frontier.data, visited)
    requires frontier.data != [] && frontier.queue
    modifies frontier
    ensures found.Some? ==> (found.value == old(frontier.data)[0] && arena' == arena
      && Linked(arena) && |arena| <= |FreeCells(g)| && LinkedBelow(found.value, |arena|)
      && Walk(g, s, ChainOf(arena, found.value), gl)
      && found.value.localDist == Finite(|ChainOf(arena, found.value)|))
    ensures found.None? ==> (AStarState(g, s, gl, arena', frontier.data, visited')
      && |FreeCells(g) - visited'| < |FreeCells(g) - visited|)
  {
    ghost var before := frontier.data;
    ghost var k := 0;
    var popped := frontier.Pop();
    var node := popped.value;
    assert node == before[k] && frontier.data == before[..k] + before[k + 1..];
    if node.state == gl {
      GoalChain(g, s, gl, arena, before, visited, k);
      VisitedBound(g, s, gl, arena, before, visited);
      LocalDistIsChainLength(arena, gl, node);
      return Some(node), arena, visited;
    }
    AStarPop(g, s, gl, arena, before, visited, k);
    visited' := visited + {node.state};
    arena' := arena + [node];
    PushScored(frontier, g, s, gl, arena', visited');
    found := None;
    Reorder(frontier, g, s, gl, arena', visited');
  }

  /** Taking the k-th node out and expanding it keeps the scores and leaves only its own
      neighbours uncovered. */
  lemma AStarPop(g: Grid, s: Coord, gl: Coord, arena: seq<SearchNode>,
                 frontier: seq<SearchNode>, visited: set<Coord>, k: nat)
    requires SearchState(g, s, gl, arena, frontier, visited) && Closed(g, visited, frontier, None)
    requires AllScored(arena, gl, arena) && AllScored(arena, gl, frontier)
    requires k < |frontier| && frontier[k].state != gl
    ensures var n, rest := frontier[k], frontier[..k] + frontier[k + 1..];
      var arena', visited' := arena + [n], visited + {n.state};
      SearchState(g, s, gl, arena', rest, visited')
      && Closed(g, visited', rest, Some(n.state))
      && AllScored(arena', gl, arena') && AllScored(arena', gl, rest)
      && n.AStarNode? && n.localDist.Finite?
      && |FreeCells(g) - visited'| < |FreeCells(g) - visited|
  {
    var n := frontier[k];
    PopState(g, s, gl, arena, frontier, visited, k);
    ScoredAfterPop(arena, gl, frontier, k);
  }

  /** `if not frontier.empty()`: the first node of least global distance moves to the front. */
  method Reorder(frontier: Frontier, g: Grid, s: Coord, gl: Coord,
                 arena: seq<SearchNode>, visited: set<Coord>)
    requires SearchState(g, s, gl, arena, frontier.data, visited)
    requires Closed(g, visited, frontier.data, None)
    requires AllScored(arena, gl, arena) && AllScored(arena, gl, frontier.data)
    modifies frontier
    ensures AStarState(g, s, gl, arena, frontier.data, visited)
  {
    if !frontier.Empty() {
      ScoredAreAStar(arena, gl, frontier.data);
      RotatedState(g, s, gl, arena, frontier.data, visited);
      frontier.MoveMinimumToHead();
    }
  }

  /** The `while not frontier.empty()` loop of `astar_search`, from the frontier holding the
      start node alone: the node of the goal, if it reaches one, and the nodes it expanded,
      in order. */
  method AStarExplore(frontier: Frontier, g: Grid, s: Coord, gl: Coord)
      returns (found: Option<SearchNode>, arena: seq<SearchNode>)
    requires AStarState(g, s, gl, [], frontier.data, {}) && frontier.queue
    modifies frontier
    ensures Linked(arena) && |arena| <= |FreeCells(g)|
    ensures found.Some? ==>
      LinkedBelow(found.value, |arena|) && Walk(g, s, ChainOf(arena, found.value), gl)
    ensures found.None? ==> forall path :: !Walk(g, s, path, gl)
  {
    var visited: set<Coord> := {};
    arena := [];
    while !frontier.Empty()
      invariant AStarState(g, s, gl, arena, frontier.data, visited) && frontier.queue
      decreases |FreeCells(g) - visited|
    {
      ghost var left := |FreeCells(g) - visited|;
      found, arena, visited := AStarExpandNext(frontier, g, s, gl, arena, visited);
      if found.Some? {
        return;
      }
      assert |FreeCells(g) - visited| < left;
    }
    NoWalk(g, s, gl, arena, visited);
    VisitedBound(g, s, gl, arena, [], visited);
    return None, arena;
  }

  /** Before the loop: the start node, at distance zero, alone in the frontier. */
  lemma AStarInit(g: Grid, start: Coord, goal: Coord)
    requires Shaped(g) && Free(g, start)
    ensures var n := AStarNode(start, None, Finite(0), Finite(Heuristic(start, goal)), false);
      AStarState(g, start, goal, [], [n], {})
  {
    var n := AStarNode(start, None, Finite(0), Finite(Heuristic(start, goal)), false);
    assert States([n]) == [start];
    assert NodeOK(g, start, [], n, 0);
    assert Closed(g, {}, [n], None);
  }
}
