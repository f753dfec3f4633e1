/** The `Maze` object of the maze scripts and its searches: `uninformed_search` and
    `astar_search` of algorithms/1_pathfinding/maze.py, and the breadth-first
    `uninformed_search` of algorithms/maze/maze.py. */
module MazeSearch {

  import opened PyCore
  import opened MazeCells
  import opened MazeGrid
  import opened MazeFrontier
  import opened MazeChains
  import opened MazeAStar
  import opened MazeLayers

  /** `Algo`: which frontier `uninformed_search` uses. */
  datatype Algo = BFS | DFS

  /** A maze after `load`: the grid, which nothing changes afterwards, the `solution` of the last search that found the goal,
      and `explored_count`, the number of nodes that search expanded. */
  class Maze {
    const width: nat
    const height: nat
    const obstacles: seq<seq<bool>>
    const start: Option<Coord>
    const goal: Option<Coord>
    var solution: seq<Coord>
    var exploredCount: nat

    function Grid(): Grid {
      MazeGrid.Grid(width, height, obstacles, start, goal)
    }

    predicate Valid() {
      Loaded(Grid())
    }

    /** `Maze(filename)` once `load` has read the grid: no solution yet. */
    constructor(g: Grid)
      requires Loaded(g)
      ensures Valid() && Grid() == g && solution == [] && exploredCount == 0
    {
      width, height, obstacles := g.width, g.height, g.obstacles;
      start, goal := g.start, g.goal;
      solution := [];
      exploredCount := 0;
    }

    /** `print`. */
    method Print() returns (r: Outcome<seq<string>>)
      requires Valid()
      ensures r.Raise? <==> RenderFails(Grid())
      ensures r.Return? ==> Rendered(Grid(), solution, r.value)
    {
      r := Render(Grid(), solution);
    }

    /** The `while node.parent` loop: `solution` cleared, then each state inserted at the
      front while climbing from `node` to the node without a parent. */
    method SaveSolution(arena: seq<SearchNode>, node: SearchNode)
      requires Linked(arena) && LinkedBelow(node, |arena|)
      modifies this
      ensures solution == ChainOf(arena, node)
      ensures exploredCount == old(exploredCount)
    {
      solution := [];
      var n := node;
      while n.parent.Some?
        invariant LinkedBelow(n, |arena|)
        invariant ChainOf(arena, n) + solution == ChainOf(arena, node)
        invariant exploredCount == old(exploredCount)
        decreases if n.parent.Some? then n.parent.value + 1 else 0
      {
        solution := [n.state] + solution;
        n := arena[n.parent.value];
      }
      assert [] + solution == solution;
    }

    /** The loop both `uninformed_search` methods share, on a queue (`queue`) or a stack.
      It raises `AttributeError` when the file had no 'S' or no 'G'. It returns true with
      a walk from the start to the goal in `solution`, or false, leaving `solution` alone,
      exactly when no such walk exists. Each free cell is expanded at most once. On a queue
      the walk found is a shortest one. */
    method Search(queue: bool) returns (r: Outcome<bool>)
      requires Valid()
      modifies this
      ensures r.Raise? <==> start.None? || goal.None?
      ensures r.Raise? ==> r.error == AttributeError && exploredCount == 0
      ensures r != Return(true) ==> solution == old(solution)
      ensures r == Return(true) ==> Walk(Grid(), start.value, solution, goal.value)
      ensures r == Return(true) && queue ==>
        forall path :: Walk(Grid(), start.value, path, goal.value) ==> |solution| <= |path|
      ensures r == Return(false) ==> forall path :: !Walk(Grid(), start.value, path, goal.value)
      ensures exploredCount <= |FreeCells(Grid())| <= width * height
    {
      exploredCount := 0;
      var frontier := new Frontier(queue);
      FreeCellsBound(Grid(), {});
      if start.None? {
        return Raise(AttributeError);
      }
      frontier.Push(Node(start.value, None));
      // The source raises at the first comparison with the goal, once the start node is
      // popped again; nothing else is observable by then.
      if goal.None? {
        return Raise(AttributeError);
      }
      var g, s, gl := Grid(), start.value, goal.value;
      assert frontier.data == [Node(s, None)];
      InitState(g, s, gl);
      LevelsInit(g, s, queue);
      var found, arena := Explore(frontier, g, s, gl);
      exploredCount := |arena|;
      if found.Some? {
        SaveSolution(arena, found.value);
        return Return(true);
      }
      return Return(false);
    }

    /** `uninformed_search(algo)` of algorithms/1_pathfinding/maze.py: breadth-first with
      a queue, depth-first with a stack; only the breadth-first walk is promised to be
      shortest. */
    method UninformedSearch(algo: Algo) returns (r: Outcome<bool>)
      requires Valid()
      modifies this
      ensures r.Raise? <==> start.None? || goal.None?
      ensures r.Raise? ==> r.error == AttributeError && exploredCount == 0
      ensures r != Return(true) ==> solution == old(solution)
      ensures r == Return(true) ==> Walk(Grid(), start.value, solution, goal.value)
      ensures r == Return(true) && algo == BFS ==>
        forall path :: Walk(Grid(), start.value, path, goal.value) ==> |solution| <= |path|
      ensures r == Return(false) ==> forall path :: !Walk(Grid(), start.value, path, goal.value)
      ensures exploredCount <= |FreeCells(Grid())| <= width * height
    {
      r := Search(algo == BFS);
    }

    /** `astar_search`: the frontier is a queue whose front is kept a node of least local
      plus heuristic distance. It raises `AttributeError` when the file had no 'S' or no
      'G'. It returns true with a walk from the start to the goal in `solution`, or, leaving
      `solution` alone, falls off its end (Python's `None`) exactly when no such walk
      exists; it never returns false. */
    method AStarSearch() returns (r: Outcome<Option<bool>>)
      requires Valid()
      modifies this
      ensures r.Raise? <==> start.None? || goal.None?
      ensures r.Raise? ==> r.error == AttributeError && exploredCount == 0
      ensures r != Return(Some(false))
      ensures r != Return(Some(true)) ==> solution == old(solution)
      ensures r == Return(Some(true)) ==> Walk(Grid(), start.value, solution, goal.value)
      ensures r == Return(None) ==> forall path :: !Walk(Grid(), start.value, path, goal.value)
      ensures exploredCount <= |FreeCells(Grid())| <= width * height
    {
      exploredCount := 0;
      FreeCellsBound(Grid(), {});
      if start.None? || goal.None? {
        return Raise(AttributeError);
      }
      var g, s, gl := Grid(), start.value, goal.value;
      var frontier := new Frontier(true);
      var first := AStarNode(s, None, Finite(0), Finite(Heuristic(s, gl)), false);
      frontier.Push(first);
      assert frontier.data == [first];
      AStarInit(g, s, gl);
      var found, arena := AStarExplore(frontier, g, s, gl);
      exploredCount := |arena|;
      if found.Some? {
        SaveSolution(arena, found.value);
        return Return(Some(true));
      }
      return Return(None);
    }

    /** `uninformed_search()` of algorithms/maze/maze.py: always breadth-first, so the walk it
      finds is a shortest one. */
    method BreadthFirstSearch() returns (r: Outcome<bool>)
      requires Valid()
      modifies this
      ensures r.Raise? <==> start.None? || goal.None?
      ensures r.Raise? ==> r.error == AttributeError && exploredCount == 0
      ensures r != Return(true) ==> solution == old(solution)
      ensures r == Return(true) ==> Walk(Grid(), start.value, solution, goal.value)
      ensures r == Return(true) ==>
        forall path :: Walk(Grid(), start.value, path, goal.value) ==> |solution| <= |path|
      ensures r == Return(false) ==> forall path :: !Walk(Grid(), start.value, path, goal.value)
      ensures exploredCount <= |FreeCells(Grid())| <= width * height
    {
      r := Search(true);
    }
  }

  /** The `for` loop over `find_new_states` of the node just expanded, the last in
      `arena`: a node for each neighbour neither visited nor in the frontier, whose parent
      is that node. Afterwards every visited cell is covered again. */
  method PushNeighbours(frontier: Frontier, g: Grid, s: Coord, gl: Coord,
                        arena: seq<SearchNode>, visited: set<Coord>, ghost lv: map<Coord, nat>)
      returns (ghost lv': map<Coord, nat>)
    requires SearchState(g, s, gl, arena, frontier.data, visited) && arena != []
    requires Closed(g, visited, frontier.data, Some(arena[|arena| - 1].state))
    requires Expanding(g, s, arena, frontier.data, visited, lv, frontier.queue, 0)
    modifies frontier
    ensures SearchState(g, s, gl, arena, frontier.data, visited)
    ensures Closed(g, visited, frontier.data, None)
    ensures Levels(g, s, arena, frontier.data, visited, lv', frontier.queue)
  {
    var v := arena[|arena| - 1].state;
    assert States(arena)[|arena| - 1] == v;
    var states := FindNewStates(g, v);
    lv' := lv;
    var j := 0;
    while j < |states|
      invariant 0 <= j <= |states| && states == NewStates(g, v)
      invariant SearchState(g, s, gl, arena, frontier.data, visited)
      invariant Closed(g, visited, frontier.data, Some(v))
      invariant CoveredUpTo(g, visited, frontier.data, v, j)
      invariant Expanding(g, s, arena, frontier.data, visited, lv', frontier.queue, j)
    {
      lv' := PushIfNew(frontier, g, s, gl, arena, visited, v, states, j, lv');
      j := j + 1;
    }
    FinishState(g, visited, frontier.data, v);
    LevelsFinish(g, s, arena, frontier.data, visited, lv', frontier.queue);
  }

  /** One turn of that loop: push a node for the j-th neighbour when it is neither visited
      nor in the frontier. */
  method PushIfNew(frontier: Frontier, g: Grid, s: Coord, gl: Coord, arena: seq<SearchNode>,
                   visited: set<Coord>, v: Coord, states: seq<Coord>, j: nat, ghost lv: map<Coord, nat>)
      returns (ghost lv': map<Coord, nat>)
    requires SearchState(g, s, gl, arena, frontier.data, visited)
    requires arena != [] && v == arena[|arena| - 1].state
    requires j < |states| && states == NewStates(g, v)
    requires Closed(g, visited, frontier.data, Some(v))
    requires CoveredUpTo(g, visited, frontier.data, v, j)
    requires Expanding(g, s, arena, frontier.data, visited, lv, frontier.queue, j)
    modifies frontier
    ensures SearchState(g, s, gl, arena, frontier.data, visited)
    ensures Closed(g, visited, frontier.data, Some(v))
    ensures CoveredUpTo(g, visited, frontier.data, v, j + 1)
    ensures Expanding(g, s, arena, frontier.data, visited, lv', frontier.queue, j + 1)
  {
    var t := states[j];
    lv' := lv;
    if t !in visited && !frontier.Contains(t) {
      PushState(g, s, gl, arena, frontier.data, visited, j, Node(t, Some(|arena| - 1)));
      LevelsPush(g, s, arena, frontier.data, visited, lv, frontier.queue, j, t);
      lv' := lv[t := Lv(lv, v) + 1];
      frontier.Push(Node(t, Some(|arena| - 1)));
    } else {
      SkipState(g, visited, frontier.data, v, j);
      LevelsSkip(g, s, arena, frontier.data, visited, lv, frontier.queue, j);
    }
  }

  /** The `while not frontier.empty()` loop of `uninformed_search`, from the frontier holding
      the start node alone: it returns the node of the goal, if it reaches one, and the
      nodes it expanded, in order. */
  method Explore(frontier: Frontier, g: Grid, s: Coord, gl: Coord)
      returns (found: Option<SearchNode>, arena: seq<SearchNode>)
    requires SearchState(g, s, gl, [], frontier.data, {})
    requires Closed(g, {}, frontier.data, None)
    requires Levels(g, s, [], frontier.data, {}, map[s := 0], frontier.queue)
    modifies frontier
    ensures Linked(arena) && |arena| <= |FreeCells(g)|
    ensures found.Some? ==>
      LinkedBelow(found.value, |arena|) && Walk(g, s, ChainOf(arena, found.value), gl)
    ensures found.Some? && frontier.queue ==>
      forall path :: Walk(g, s, path, gl) ==> |ChainOf(arena, found.value)| <= |path|
    ensures found.None? ==> forall path :: !Walk(g, s, path, gl)
  {
    var visited: set<Coord> := {};
    ghost var lv: map<Coord, nat> := map[s := 0];
    arena := [];
    while !frontier.Empty()
      invariant SearchState(g, s, gl, arena, frontier.data, visited)
      invariant Closed(g, visited, frontier.data, None)
      invariant Levels(g, s, arena, frontier.data, visited, lv, frontier.queue)
      decreases |FreeCells(g) - visited|
    {
      ghost var left := |FreeCells(g) - visited|;
      found, arena, visited, lv := ExpandNext(frontier, g, s, gl, arena, visited, lv);
      if found.Some? {
        return;
      }
      assert |FreeCells(g) - visited| < left;
    }
    NoWalk(g, s, gl, arena, visited);
    VisitedBound(g, s, gl, arena, [], visited);
    return None, arena;
  }

  /** One turn of that loop: the next node leaves the frontier; it is returned when it holds
      the goal, and otherwise expanded. */
  method ExpandNext(frontier: Frontier, g: Grid, s: Coord, gl: Coord,
                    arena: seq<SearchNode>, visited: set<Coord>, ghost lv: map<Coord, nat>)
      returns (found: Option<SearchNode>, arena': seq<SearchNode>, visited': set<Coord>,
               ghost lv': map<Coord, nat>)
    requires SearchState(g, s, gl, arena, frontier.data, visited) && frontier.data != []
    requires Closed(g, visited, frontier.data, None)
    requires Levels(g, s, arena, frontier.data, visited, lv, frontier.queue)
    modifies frontier
    ensures found.Some? ==> (arena' == arena && Linked(arena) && |arena| <= |FreeCells(g)|
      && LinkedBelow(found.value, |arena|) && Walk(g, s, ChainOf(arena, found.value), gl))
    ensures found.Some? && frontier.queue ==>
      forall path :: Walk(g, s, path, gl) ==> |ChainOf(arena, found.value)| <= |path|
    ensures found.None? ==> (SearchState(g, s, gl, arena', frontier.data, visited')
      && Closed(g, visited', frontier.data, None)
      && Levels(g, s, arena', frontier.data, visited', lv', frontier.queue)
      && |FreeCells(g) - visited'| < |FreeCells(g) - visited|)
  {
    ghost var before := frontier.data;
    ghost var k := if frontier.queue then 0 else |before| - 1;
    var popped := frontier.Pop();
    var node := popped.value;
    assert node == before[k] && frontier.data == before[..k] + before[k + 1..];
    if node.state == gl {
      GoalChain(g, s, gl, arena, before, visited, k);
      VisitedBound(g, s, gl, arena, before, visited);
      if frontier.queue {
        GoalShortest(g, s, gl, arena, before, visited, lv);
      }
      return Some(node), arena, visited, lv;
    }
    PopState(g, s, gl, arena, before, visited, k);
    LevelsPop(g, s, arena, before, visited, lv, frontier.queue, k);
    visited' := visited + {node.state};
    arena' := arena + [node];
    lv' := PushNeighbours(frontier, g, s, gl, arena', visited', lv);
    found := None;
  }
}
