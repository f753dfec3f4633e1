/** What the searches of the maze scripts keep true from one expansion to the next: every
    node hangs off an expanded node next to it, `visited` holds exactly the expanded states,
    the frontier holds each state at most once and none that was visited, and every free
    neighbour of a visited cell is visited or waiting in the frontier. */
module MazeChains {

  import opened PyCore
  import opened MazeCells
  import opened MazeGrid
  import opened MazeFrontier

  // ---------------------------------------------------------------------------------
  // parent chains

  /** Each expanded node's parent was expanded before it. */
  predicate Linked(arena: seq<SearchNode>) {
    forall i :: 0 <= i < |arena| && arena[i].parent.Some? ==> arena[i].parent.value < i
  }

  /** A node whose parent, if any, is among the first `bound` expanded nodes. */
  predicate LinkedBelow(n: SearchNode, bound: nat) {
    n.parent.Some? ==> n.parent.value < bound
  }

  /** The states the `while node.parent` loop collects, in start-to-node order: every
      node's state from the node up to, and not including, the node without a parent. */
  function ChainOf(arena: seq<SearchNode>, n: SearchNode): seq<Coord>
    requires Linked(arena) && LinkedBelow(n, |arena|)
    decreases if n.parent.Some? then n.parent.value + 1 else 0
  {
    match n.parent
    case None => []
    case Some(p) => ChainOf(arena, arena[p]) + [n.state]
  }

  /** A chain does not change when more nodes are expanded. */
  lemma {:induction false} ChainExtend(arena: seq<SearchNode>, more: seq<SearchNode>, n: SearchNode)
    requires Linked(arena) && Linked(arena + more) && LinkedBelow(n, |arena|)
    ensures ChainOf(arena + more, n) == ChainOf(arena, n)
    decreases if n.parent.Some? then n.parent.value + 1 else 0
  {
    if n.parent.Some? {
      var p := n.parent.value;
      assert (arena + more)[p] == arena[p];
      ChainExtend(arena, more, arena[p]);
    }
  }

  /** A node in place: on a free cell; the start when it has no parent, and otherwise one
      step from its parent, which is among the first `bound` expanded nodes. */
  predicate NodeOK(g: Grid, start: Coord, arena: seq<SearchNode>, n: SearchNode, bound: nat)
    requires Shaped(g)
  {
    Free(g, n.state) && bound <= |arena|
    && match n.parent
       case None => n.state == start
       case Some(p) => p < bound && Adjacent(arena[p].state, n.state)
  }

  predicate ArenaOK(g: Grid, start: Coord, arena: seq<SearchNode>)
    requires Shaped(g)
  {
    forall i :: 0 <= i < |arena| ==> NodeOK(g, start, arena, arena[i], i)
  }

  lemma ArenaLinked(g: Grid, start: Coord, arena: seq<SearchNode>)
    requires Shaped(g) && ArenaOK(g, start, arena)
    ensures Linked(arena)
  {
    forall i | 0 <= i < |arena| && arena[i].parent.Some?
      ensures arena[i].parent.value < i
    {
      assert NodeOK(g, start, arena, arena[i], i);
    }
  }

  /** Following the parents of a node in place walks from the start to the node. */
  lemma {:induction false} ChainWalk(g: Grid, start: Coord, arena: seq<SearchNode>, n: SearchNode, bound: nat)
    requires Shaped(g) && ArenaOK(g, start, arena) && NodeOK(g, start, arena, n, bound)
    ensures Linked(arena) && LinkedBelow(n, |arena|)
    ensures Walk(g, start, ChainOf(arena, n), n.state)
    decreases bound
  {
    ArenaLinked(g, start, arena);
    if n.parent.Some? {
      var p := n.parent.value;
      assert NodeOK(g, start, arena, arena[p], p);
      ChainWalk(g, start, arena, arena[p], p);
      WalkSnoc(g, start, ChainOf(arena, arena[p]), arena[p].state, n.state);
    }
  }

  // ---------------------------------------------------------------------------------
  // the search state

  /** Each state at most once among the nodes. */
  predicate DistinctStates(nodes: seq<SearchNode>) {
    forall i, j :: 0 <= i < j < |nodes| ==> nodes[i].state != nodes[j].state
  }

  /** Nodes in place whose parents are all expanded already. */
  predicate NodesOK(g: Grid, start: Coord, arena: seq<SearchNode>, nodes: seq<SearchNode>)
    requires Shaped(g)
  {
    forall k :: 0 <= k < |nodes| ==> NodeOK(g, start, arena, nodes[k], |arena|)
  }

  /** `visited` holds the states of the expanded nodes, each expanded once. */
  ghost predicate Expanded(visited: set<Coord>, arena: seq<SearchNode>) {
    (forall c :: c in visited <==> c in States(arena)) && |visited| == |arena|
  }

  /** No node holds a visited state. */
  predicate Unvisited(nodes: seq<SearchNode>, visited: set<Coord>) {
    forall k :: 0 <= k < |nodes| ==> nodes[k].state !in visited
  }

  /** The state of a search between two expansions: the expanded nodes `arena`, the
      frontier's nodes `frontier` and the set `visited`. */
  ghost predicate SearchState(g: Grid, start: Coord, goal: Coord, arena: seq<SearchNode>,
                              frontier: seq<SearchNode>, visited: set<Coord>)
  {
    Shaped(g) && ArenaOK(g, start, arena) && NodesOK(g, start, arena, frontier)
    && Expanded(visited, arena) && DistinctStates(frontier) && Unvisited(frontier, visited)
    && goal !in visited && (start in visited || start in States(frontier))
  }

  /** Every free neighbour of u is visited or in the frontier. */
  predicate Covered(g: Grid, visited: set<Coord>, frontier: seq<SearchNode>, u: Coord)
    requires Shaped(g)
  {
    forall t :: t in NewStates(g, u) ==> t in visited || t in States(frontier)
  }

  /** The same for the first j neighbours `find_new_states` lists. */
  predicate CoveredUpTo(g: Grid, visited: set<Coord>, frontier: seq<SearchNode>, u: Coord, j: nat)
    requires Shaped(g) && j <= |NewStates(g, u)|
  {
    forall i :: 0 <= i < j ==> NewStates(g, u)[i] in visited || NewStates(g, u)[i] in States(frontier)
  }

  /** Every visited cell other than `skip` is covered. */
  predicate Closed(g: Grid, visited: set<Coord>, frontier: seq<SearchNode>, skip: Option<Coord>)
    requires Shaped(g)
  {
    forall u :: u in visited && skip != Some(u) ==> Covered(g, visited, frontier, u)
  }

  /** Before the loop: one parentless node on the start, nothing visited. */
  lemma InitState(g: Grid, start: Coord, goal: Coord)
    requires Shaped(g) && Free(g, start)
    ensures SearchState(g, start, goal, [], [Node(start, None)], {})
    ensures Closed(g, {}, [Node(start, None)], None)
  {
    assert States([Node(start, None)]) == [start];
  }

  // ---- taking a node out of the frontier

  /** A node in place stays in place when more nodes are expanded. */
  lemma NodeWiden(g: Grid, start: Coord, arena: seq<SearchNode>, n: SearchNode, x: SearchNode,
                  bound: nat, bound': nat)
    requires Shaped(g) && NodeOK(g, start, arena, x, bound) && bound <= bound' <= |arena| + 1
    ensures NodeOK(g, start, arena + [n], x, bound')
  {
    if x.parent.Some? {
      assert (arena + [n])[x.parent.value] == arena[x.parent.value];
    }
  }

  lemma ArenaSnoc(g: Grid, start: Coord, arena: seq<SearchNode>, n: SearchNode)
    requires Shaped(g) && ArenaOK(g, start, arena) && NodeOK(g, start, arena, n, |arena|)
    ensures ArenaOK(g, start, arena + [n])
  {
    var arena' := arena + [n];
    forall i | 0 <= i < |arena'|
      ensures NodeOK(g, start, arena', arena'[i], i)
    {
      if i < |arena| {
        NodeWiden(g, start, arena, n, arena[i], i, i);
      } else {
        NodeWiden(g, start, arena, n, n, i, i);
      }
    }
  }

  lemma NodesAfterPop(g: Grid, start: Coord, arena: seq<SearchNode>, frontier: seq<SearchNode>, k: nat)
    requires Shaped(g) && k < |frontier| && NodesOK(g, start, arena, frontier)
    ensures NodesOK(g, start, arena + [frontier[k]], frontier[..k] + frontier[k + 1..])
  {
    var rest := frontier[..k] + frontier[k + 1..];
    forall j | 0 <= j < |rest|
      ensures NodeOK(g, start, arena + [frontier[k]], rest[j], |arena| + 1)
    {
      var orig := if j < k then j else j + 1;
      assert rest[j] == frontier[orig];
      NodeWiden(g, start, arena, frontier[k], frontier[orig], |arena|, |arena| + 1);
    }
  }

  lemma ExpandedSnoc(visited: set<Coord>, arena: seq<SearchNode>, n: SearchNode)
    requires Expanded(visited, arena) && n.state !in visited
    ensures Expanded(visited + {n.state}, arena + [n])
  {
    assert States(arena + [n]) == States(arena) + [n.state];
  }

  /** What stays in the frontier after the k-th node leaves it. */
  lemma RestStates(frontier: seq<SearchNode>, visited: set<Coord>, k: nat)
    requires k < |frontier| && DistinctStates(frontier) && Unvisited(frontier, visited)
    ensures var rest := frontier[..k] + frontier[k + 1..];
      DistinctStates(rest) && Unvisited(rest, visited + {frontier[k].state})
      && forall c :: c in States(frontier) ==> c == frontier[k].state || c in States(rest)
  {
    var rest := frontier[..k] + frontier[k + 1..];
    assert forall j :: 0 <= j < k ==> rest[j] == frontier[j];
    assert forall j :: k <= j < |rest| ==> rest[j] == frontier[j + 1];
    forall c | c in States(frontier)
      ensures c == frontier[k].state || c in States(rest)
    {
      var j :| 0 <= j < |frontier| && frontier[j].state == c;
      if j < k {
        assert rest[j].state == c;
      } else if j > k {
        assert rest[j - 1].state == c;
      }
    }
  }

  lemma ClosedAfterPop(g: Grid, visited: set<Coord>, frontier: seq<SearchNode>,
                       rest: seq<SearchNode>, c: Coord)
    requires Shaped(g) && Closed(g, visited, frontier, None)
    requires forall t :: t in States(frontier) ==> t == c || t in States(rest)
    ensures Closed(g, visited + {c}, rest, Some(c))
  {
    forall u | u in visited + {c} && Some(c) != Some(u)
      ensures Covered(g, visited + {c}, rest, u)
    {
      assert Covered(g, visited, frontier, u);
    }
  }

  /** Taking the k-th node out of the frontier and expanding it: the node joins the
      expanded ones and its state joins `visited`; only its own neighbours are not yet
      covered. */
  lemma PopState(g: Grid, start: Coord, goal: Coord, arena: seq<SearchNode>,
                 frontier: seq<SearchNode>, visited: set<Coord>, k: nat)
    requires SearchState(g, start, goal, arena, frontier, visited)
    requires Closed(g, visited, frontier, None)
    requires k < |frontier| && frontier[k].state != goal
    ensures var n := frontier[k];
      var rest := frontier[..k] + frontier[k + 1..];
      SearchState(g, start, goal, arena + [n], rest, visited + {n.state})
      && Closed(g, visited + {n.state}, rest, Some(n.state))
      && n.state !in visited && Free(g, n.state)
      && |FreeCells(g) - (visited + {n.state})| < |FreeCells(g) - visited|
  {
    var n := frontier[k];
    var rest := frontier[..k] + frontier[k + 1..];
    assert NodeOK(g, start, arena, n, |arena|);
    ArenaSnoc(g, start, arena, n);
    NodesAfterPop(g, start, arena, frontier, k);
    ExpandedSnoc(visited, arena, n);
    RestStates(frontier, visited, k);
    ClosedAfterPop(g, visited, frontier, rest, n.state);
    Progress(FreeCells(g), visited, n.state);
  }

  // ---- considering one neighbour of the expanded node

  lemma NodesSnoc(g: Grid, start: Coord, arena: seq<SearchNode>, nodes: seq<SearchNode>, node: SearchNode)
    requires Shaped(g) && NodesOK(g, start, arena, nodes) && NodeOK(g, start, arena, node, |arena|)
    ensures NodesOK(g, start, arena, nodes + [node])
  {
  }

  lemma StatesSnoc(nodes: seq<SearchNode>, visited: set<Coord>, node: SearchNode)
    requires DistinctStates(nodes) && Unvisited(nodes, visited)
    requires node.state !in States(nodes) && node.state !in visited
    ensures DistinctStates(nodes + [node]) && Unvisited(nodes + [node], visited)
    ensures States(nodes + [node]) == States(nodes) + [node.state]
  {
  }

  lemma ClosedSnoc(g: Grid, visited: set<Coord>, frontier: seq<SearchNode>, node: SearchNode,
                   v: Coord, j: nat)
    requires Shaped(g) && Closed(g, visited, frontier, Some(v))
    requires j <= |NewStates(g, v)| && CoveredUpTo(g, visited, frontier, v, j)
    requires States(frontier + [node]) == States(frontier) + [node.state]
    ensures Closed(g, visited, frontier + [node], Some(v))
    ensures CoveredUpTo(g, visited, frontier + [node], v, j)
  {
    forall u | u in visited && Some(v) != Some(u)
      ensures Covered(g, visited, frontier + [node], u)
    {
      assert Covered(g, visited, frontier, u);
    }
  }

  /** Considering the j-th neighbour of the expanded state v: pushing a node for it when it
      is neither visited nor in the frontier, the neighbour is covered. */
  lemma PushState(g: Grid, start: Coord, goal: Coord, arena: seq<SearchNode>,
                  frontier: seq<SearchNode>, visited: set<Coord>, j: nat, node: SearchNode)
    requires SearchState(g, start, goal, arena, frontier, visited) && arena != []
    requires var v := arena[|arena| - 1].state;
      Closed(g, visited, frontier, Some(v)) && j < |NewStates(g, v)|
      && CoveredUpTo(g, visited, frontier, v, j)
      && node.state == NewStates(g, v)[j] && node.parent == Some(|arena| - 1)
      && node.state !in visited && node.state !in States(frontier)
    ensures var v := arena[|arena| - 1].state;
      SearchState(g, start, goal, arena, frontier + [node], visited)
      && Closed(g, visited, frontier + [node], Some(v))
      && CoveredUpTo(g, visited, frontier + [node], v, j + 1)
  {
    var v := arena[|arena| - 1].state;
    assert NodeOK(g, start, arena, node, |arena|) by {
      NewStatesSpec(g, v);
      assert node.state in NewStates(g, v);
    }
    NodesSnoc(g, start, arena, frontier, node);
    StatesSnoc(frontier, visited, node);
    ClosedSnoc(g, visited, frontier, node, v, j);
  }

  /** A neighbour already visited or waiting needs no node. */
  lemma SkipState(g: Grid, visited: set<Coord>, frontier: seq<SearchNode>, v: Coord, j: nat)
    requires Shaped(g) && j < |NewStates(g, v)| && CoveredUpTo(g, visited, frontier, v, j)
    requires NewStates(g, v)[j] in visited || NewStates(g, v)[j] in States(frontier)
    ensures CoveredUpTo(g, visited, frontier, v, j + 1)
  {
  }

  /** Once all its neighbours are considered, the expanded state is covered too. */
  lemma FinishState(g: Grid, visited: set<Coord>, frontier: seq<SearchNode>, v: Coord)
    requires Shaped(g) && Closed(g, visited, frontier, Some(v))
    requires CoveredUpTo(g, visited, frontier, v, |NewStates(g, v)|)
    ensures Closed(g, visited, frontier, None)
  {
    assert Covered(g, visited, frontier, v);
  }

  /** The visited cells are free, so there are at most width times height of them, and the
      free cells left to visit shrink with each expansion. */
  lemma VisitedBound(g: Grid, start: Coord, goal: Coord, arena: seq<SearchNode>,
                     frontier: seq<SearchNode>, visited: set<Coord>)
    requires SearchState(g, start, goal, arena, frontier, visited)
    ensures visited <= FreeCells(g)
    ensures |arena| <= |FreeCells(g)| <= g.width * g.height
  {
    forall c | c in visited
      ensures Free(g, c)
    {
      var i :| 0 <= i < |arena| && arena[i].state == c;
      assert NodeOK(g, start, arena, arena[i], i);
    }
    FreeCellsBound(g, visited);
  }

  lemma Progress(cells: set<Coord>, visited: set<Coord>, c: Coord)
    requires c in cells && c !in visited
    ensures |cells - (visited + {c})| < |cells - visited|
  {
    assert cells - (visited + {c}) == (cells - visited) - {c};
  }

  /** When the frontier runs out, the visited cells are closed under steps, hold the start
      and not the goal: no walk reaches the goal. */
  lemma NoWalk(g: Grid, start: Coord, goal: Coord, arena: seq<SearchNode>, visited: set<Coord>)
    requires SearchState(g, start, goal, arena, [], visited) && Closed(g, visited, [], None)
    ensures forall path :: !Walk(g, start, path, goal)
  {
    forall path | Walk(g, start, path, goal)
      ensures false
    {
      forall v | v in visited
        ensures forall t :: t in NewStates(g, v) ==> t in visited
      {
        assert Covered(g, visited, [], v);
      }
      ClosedWalk(g, visited, start, path, goal);
    }
  }

  /** The node taken out of the frontier on the goal: its chain walks from the start to
      the goal. */
  lemma GoalChain(g: Grid, start: Coord, goal: Coord, arena: seq<SearchNode>,
                  frontier: seq<SearchNode>, visited: set<Coord>, k: nat)
    requires SearchState(g, start, goal, arena, frontier, visited) && k < |frontier|
    ensures Linked(arena) && LinkedBelow(frontier[k], |arena|)
    ensures Walk(g, start, ChainOf(arena, frontier[k]), frontier[k].state)
  {
    ChainWalk(g, start, arena, frontier[k], |arena|);
  }
}
