/** Why the queue makes `uninformed_search` find a shortest path, as its comment promises
    (algorithms/1_pathfinding/maze.py and algorithms/maze/maze.py): each node's level, the
    number of parents above it, is kept in a ghost map from states; the queue holds its
    nodes in non-decreasing level, at most one level apart, and a neighbour of an expanded
    cell is never more than one level below it. */
module MazeLayers {

  import opened PyCore
  import opened MazeCells
  import opened MazeGrid
  import opened MazeFrontier
  import opened MazeChains

  /** The level recorded for a state. */
  function Lv(lv: map<Coord, nat>, c: Coord): nat {
    if c in lv then lv[c] else 0
  }

  /** The parentless node is at level 0, every other node one level below its parent. */
  predicate Leveled(arena: seq<SearchNode>, lv: map<Coord, nat>, n: SearchNode) {
    n.state in lv
    && match n.parent
       case None => Lv(lv, n.state) == 0
       case Some(p) => p < |arena| && Lv(lv, n.state) == Lv(lv, arena[p].state) + 1
  }

  predicate AllLeveled(arena: seq<SearchNode>, lv: map<Coord, nat>, nodes: seq<SearchNode>) {
    forall k :: 0 <= k < |nodes| ==> Leveled(arena, lv, nodes[k])
  }

  /** A node's level is the number of steps its parents spell. */
  lemma {:induction false} LevelIsChainLength(arena: seq<SearchNode>, lv: map<Coord, nat>, n: SearchNode)
    requires Linked(arena) && LinkedBelow(n, |arena|)
    requires AllLeveled(arena, lv, arena) && Leveled(arena, lv, n)
    ensures Lv(lv, n.state) == |ChainOf(arena, n)|
    decreases if n.parent.Some? then n.parent.value + 1 else 0
  {
    if n.parent.Some? {
      LevelIsChainLength(arena, lv, arena[n.parent.value]);
    }
  }

  /** The queue between two expansions: levels non-decreasing from front to back, none more
      than one above the front's, and no expanded node above any waiting one. */
  predicate Layered(arena: seq<SearchNode>, frontier: seq<SearchNode>, lv: map<Coord, nat>) {
    (forall i, j :: 0 <= i <= j < |frontier| ==>
       Lv(lv, frontier[i].state) <= Lv(lv, frontier[j].state) <= Lv(lv, frontier[0].state) + 1)
    && (forall i, k :: 0 <= i < |arena| && 0 <= k < |frontier| ==>
       Lv(lv, arena[i].state) <= Lv(lv, frontier[k].state))
  }

  /** The queue while the node at level d is expanded: levels non-decreasing, each d or d + 1,
      and no expanded node above d. */
  predicate Band(arena: seq<SearchNode>, frontier: seq<SearchNode>, lv: map<Coord, nat>, d: nat) {
    (forall i, j :: 0 <= i <= j < |frontier| ==> Lv(lv, frontier[i].state) <= Lv(lv, frontier[j].state))
    && (forall k :: 0 <= k < |frontier| ==> d <= Lv(lv, frontier[k].state) <= d + 1)
    && (forall i :: 0 <= i < |arena| ==> Lv(lv, arena[i].state) <= d)
  }

  /** Every free neighbour of a visited cell other than `skip` is at most one level below it. */
  predicate LvClosed(g: Grid, visited: set<Coord>, lv: map<Coord, nat>, skip: Option<Coord>)
    requires Shaped(g)
  {
    forall u, t :: u in visited && skip != Some(u) && t in NewStates(g, u) ==> Lv(lv, t) <= Lv(lv, u) + 1
  }

  /** The same for the first j neighbours of v. */
  predicate LvUpTo(g: Grid, lv: map<Coord, nat>, v: Coord, j: nat)
    requires Shaped(g) && j <= |NewStates(g, v)|
  {
    forall i :: 0 <= i < j ==> Lv(lv, NewStates(g, v)[i]) <= Lv(lv, v) + 1
  }

  /** What the levels keep between two expansions; the ordering part only on a queue. */
  ghost predicate Levels(g: Grid, start: Coord, arena: seq<SearchNode>, frontier: seq<SearchNode>,
                         visited: set<Coord>, lv: map<Coord, nat>, queue: bool)
    requires Shaped(g)
  {
    AllLeveled(arena, lv, arena) && AllLeveled(arena, lv, frontier) && Lv(lv, start) == 0
    && (queue ==> Layered(arena, frontier, lv) && LvClosed(g, visited, lv, None))
  }

  /** What the levels keep while the last expanded node's first j neighbours have been
      considered. */
  ghost predicate Expanding(g: Grid, start: Coord, arena: seq<SearchNode>, frontier: seq<SearchNode>,
                            visited: set<Coord>, lv: map<Coord, nat>, queue: bool, j: nat)
    requires Shaped(g) && arena != [] && j <= |NewStates(g, arena[|arena| - 1].state)|
  {
    var v := arena[|arena| - 1].state;
    AllLeveled(arena, lv, arena) && AllLeveled(arena, lv, frontier) && Lv(lv, start) == 0
    && (queue ==> Band(arena, frontier, lv, Lv(lv, v)) && LvClosed(g, visited, lv, Some(v))
                  && LvUpTo(g, lv, v, j))
  }

  /** Before the loop: the start node at level 0. */
  lemma LevelsInit(g: Grid, start: Coord, queue: bool)
    requires Shaped(g)
    ensures Levels(g, start, [], [Node(start, None)], {}, map[start := 0], queue)
  {
  }

  // ---- taking a node out

  lemma LeveledWiden(arena: seq<SearchNode>, lv: map<Coord, nat>, x: SearchNode, n: SearchNode)
    requires Leveled(arena, lv, n)
    ensures Leveled(arena + [x], lv, n)
  {
    if n.parent.Some? {
      assert (arena + [x])[n.parent.value] == arena[n.parent.value];
    }
  }

  lemma LeveledAfterPop(arena: seq<SearchNode>, lv: map<Coord, nat>, frontier: seq<SearchNode>, k: nat)
    requires k < |frontier| && AllLeveled(arena, lv, arena) && AllLeveled(arena, lv, frontier)
    ensures var arena' := arena + [frontier[k]];
      AllLeveled(arena', lv, arena') && AllLeveled(arena', lv, frontier[..k] + frontier[k + 1..])
  {
    var x := frontier[k];
    var arena' := arena + [x];
    var rest := frontier[..k] + frontier[k + 1..];
    forall i | 0 <= i < |arena'|
      ensures Leveled(arena', lv, arena'[i])
    {
      if i < |arena| {
        LeveledWiden(arena, lv, x, arena[i]);
      } else {
        LeveledWiden(arena, lv, x, x);
      }
    }
    forall j | 0 <= j < |rest|
      ensures Leveled(arena', lv, rest[j])
    {
      var orig := if j < k then j else j + 1;
      assert rest[j] == frontier[orig];
      LeveledWiden(arena, lv, x, frontier[orig]);
    }
  }

  /** The front of a layered queue leaves it and is expanded: the rest of the queue lies in
      its level and the next. */
  lemma BandAfterPop(arena: seq<SearchNode>, frontier: seq<SearchNode>, lv: map<Coord, nat>)
    requires frontier != [] && Layered(arena, frontier, lv)
    ensures Band(arena + [frontier[0]], frontier[1..], lv, Lv(lv, frontier[0].state))
  {
    var arena' := arena + [frontier[0]];
    var d := Lv(lv, frontier[0].state);
    forall i | 0 <= i < |arena'|
      ensures Lv(lv, arena'[i].state) <= d
    {
      if i < |arena| {
        assert arena'[i] == arena[i];
      }
    }
    forall k | 0 <= k < |frontier| - 1
      ensures d <= Lv(lv, frontier[1..][k].state) <= d + 1
    {
      assert frontier[1..][k] == frontier[k + 1];
    }
  }

  /** Taking the k-th node out (the front, for a queue) and starting its expansion. */
  lemma LevelsPop(g: Grid, start: Coord, arena: seq<SearchNode>, frontier: seq<SearchNode>,
                  visited: set<Coord>, lv: map<Coord, nat>, queue: bool, k: nat)
    requires Shaped(g) && Levels(g, start, arena, frontier, visited, lv, queue)
    requires k < |frontier| && (queue ==> k == 0)
    ensures var x := frontier[k];
      Expanding(g, start, arena + [x], frontier[..k] + frontier[k + 1..], visited + {x.state}, lv, queue, 0)
  {
    var x := frontier[k];
    LeveledAfterPop(arena, lv, frontier, k);
    if queue {
      assert frontier[..k] + frontier[k + 1..] == frontier[1..];
      BandAfterPop(arena, frontier, lv);
    }
  }

  // ---- considering one neighbour

  /** Recording level d + 1 for a state no node holds changes no node's level. */
  lemma LeveledUpdate(arena: seq<SearchNode>, lv: map<Coord, nat>, nodes: seq<SearchNode>,
                      visited: set<Coord>, t: Coord, d: nat)
    requires AllLeveled(arena, lv, nodes) && t !in visited && t !in States(nodes)
    requires forall c :: c in States(arena) ==> c in visited
    ensures AllLeveled(arena, lv[t := d], nodes)
    ensures forall k :: 0 <= k < |nodes| ==> Lv(lv[t := d], nodes[k].state) == Lv(lv, nodes[k].state)
  {
    forall k | 0 <= k < |nodes|
      ensures Leveled(arena, lv[t := d], nodes[k])
    {
      assert nodes[k].state != t;
      var n := nodes[k];
      assert Leveled(arena, lv, n);
      if n.parent.Some? {
        assert arena[n.parent.value].state in States(arena);
      }
    }
  }

  lemma LvClosedUpdate(g: Grid, visited: set<Coord>, frontier: seq<SearchNode>, lv: map<Coord, nat>,
                       v: Coord, t: Coord, d: nat)
    requires Shaped(g) && LvClosed(g, visited, lv, Some(v)) && Closed(g, visited, frontier, Some(v))
    requires t !in visited && t !in States(frontier)
    ensures LvClosed(g, visited, lv[t := d], Some(v))
  {
    forall u, w | u in visited && Some(v) != Some(u) && w in NewStates(g, u)
      ensures Lv(lv[t := d], w) <= Lv(lv[t := d], u) + 1
    {
      assert Covered(g, visited, frontier, u);
      assert w != t && u != t;
      assert Lv(lv[t := d], w) == Lv(lv, w) && Lv(lv[t := d], u) == Lv(lv, u);
    }
  }

  /** The pushed node hangs one level below the expanded one, and the others keep theirs. */
  lemma LeveledPush(arena: seq<SearchNode>, frontier: seq<SearchNode>, visited: set<Coord>,
                    lv: map<Coord, nat>, t: Coord)
    requires arena != [] && AllLeveled(arena, lv, arena) && AllLeveled(arena, lv, frontier)
    requires t !in visited && t !in States(frontier) && arena[|arena| - 1].state in visited
    requires forall c :: c in States(arena) ==> c in visited
    ensures var lv' := lv[t := Lv(lv, arena[|arena| - 1].state) + 1];
      AllLeveled(arena, lv', arena)
      && AllLeveled(arena, lv', frontier + [Node(t, Some(|arena| - 1))])
  {
    var d := Lv(lv, arena[|arena| - 1].state);
    var lv' := lv[t := d + 1];
    var f' := frontier + [Node(t, Some(|arena| - 1))];
    LeveledUpdate(arena, lv, arena, visited, t, d + 1);
    LeveledUpdate(arena, lv, frontier, visited, t, d + 1);
    forall k | 0 <= k < |f'|
      ensures Leveled(arena, lv', f'[k])
    {
      if k < |frontier| {
        assert f'[k] == frontier[k];
      }
    }
  }

  /** The pushed node, at level d + 1, keeps the band. */
  lemma BandPush(arena: seq<SearchNode>, frontier: seq<SearchNode>, visited: set<Coord>,
                 lv: map<Coord, nat>, d: nat, n: SearchNode)
    requires Band(arena, frontier, lv, d) && n.state !in visited && n.state !in States(frontier)
    requires forall c :: c in States(arena) ==> c in visited
    ensures Band(arena, frontier + [n], lv[n.state := d + 1], d)
  {
    var t := n.state;
    var lv' := lv[t := d + 1];
    var f' := frontier + [n];
    forall k | 0 <= k < |frontier|
      ensures f'[k] == frontier[k] && Lv(lv', frontier[k].state) == Lv(lv, frontier[k].state)
    {
      assert frontier[k].state in States(frontier);
    }
    forall i | 0 <= i < |arena|
      ensures Lv(lv', arena[i].state) == Lv(lv, arena[i].state)
    {
      assert arena[i].state in States(arena);
    }
    assert Lv(lv', f'[|frontier|].state) == d + 1;
  }

  /** After the push, the first j + 1 neighbours are at most one level below. */
  lemma UpToPush(g: Grid, visited: set<Coord>, frontier: seq<SearchNode>, lv: map<Coord, nat>,
                 v: Coord, j: nat)
    requires Shaped(g) && j < |NewStates(g, v)| && v in visited
    requires LvUpTo(g, lv, v, j) && CoveredUpTo(g, visited, frontier, v, j)
    requires NewStates(g, v)[j] !in visited && NewStates(g, v)[j] !in States(frontier)
    ensures LvUpTo(g, lv[NewStates(g, v)[j] := Lv(lv, v) + 1], v, j + 1)
  {
    var t := NewStates(g, v)[j];
    var lv' := lv[t := Lv(lv, v) + 1];
    forall i | 0 <= i < j + 1
      ensures Lv(lv', NewStates(g, v)[i]) <= Lv(lv', v) + 1
    {
      if i < j {
        assert NewStates(g, v)[i] != t;
      }
    }
  }

  /** Pushing the j-th neighbour t of the expanded node, one level below it. */
  lemma LevelsPush(g: Grid, start: Coord, arena: seq<SearchNode>, frontier: seq<SearchNode>,
                   visited: set<Coord>, lv: map<Coord, nat>, queue: bool, j: nat, t: Coord)
    requires Shaped(g) && arena != []
    requires var v := arena[|arena| - 1].state;
      j < |NewStates(g, v)| && t == NewStates(g, v)[j]
      && Expanding(g, start, arena, frontier, visited, lv, queue, j)
      && Closed(g, visited, frontier, Some(v)) && CoveredUpTo(g, visited, frontier, v, j)
      && v in visited && (start in visited || start in States(frontier))
      && t !in visited && t !in States(frontier)
      && forall c :: c in States(arena) ==> c in visited
    ensures var v := arena[|arena| - 1].state;
      var lv' := lv[t := Lv(lv, v) + 1];
      Expanding(g, start, arena, frontier + [Node(t, Some(|arena| - 1))], visited, lv', queue, j + 1)
  {
    var v := arena[|arena| - 1].state;
    var d := Lv(lv, v);
    var lv' := lv[t := d + 1];
    LeveledPush(arena, frontier, visited, lv, t);
    assert Lv(lv', v) == d && Lv(lv', start) == 0;
    if queue {
      BandPush(arena, frontier, visited, lv, d, Node(t, Some(|arena| - 1)));
      LvClosedUpdate(g, visited, frontier, lv, v, t, d + 1);
      UpToPush(g, visited, frontier, lv, v, j);
    }
  }

  /** A neighbour already visited, or waiting, is at most one level below the expanded node. */
  lemma LevelsSkip(g: Grid, start: Coord, arena: seq<SearchNode>, frontier: seq<SearchNode>,
                   visited: set<Coord>, lv: map<Coord, nat>, queue: bool, j: nat)
    requires Shaped(g) && arena != []
    requires var v := arena[|arena| - 1].state;
      j < |NewStates(g, v)| && Expanding(g, start, arena, frontier, visited, lv, queue, j)
      && (NewStates(g, v)[j] in visited || NewStates(g, v)[j] in States(frontier))
      && forall c :: c in visited ==> c in States(arena)
    ensures Expanding(g, start, arena, frontier, visited, lv, queue, j + 1)
  {
    var v := arena[|arena| - 1].state;
    var t := NewStates(g, v)[j];
    if queue {
      if t in visited {
        assert t in States(arena);
        var i :| 0 <= i < |arena| && arena[i].state == t;
      } else {
        var k :| 0 <= k < |frontier| && frontier[k].state == t;
      }
    }
  }

  /** Once all its neighbours are considered, the queue is layered again. */
  lemma LevelsFinish(g: Grid, start: Coord, arena: seq<SearchNode>, frontier: seq<SearchNode>,
                     visited: set<Coord>, lv: map<Coord, nat>, queue: bool)
    requires Shaped(g) && arena != []
    requires Expanding(g, start, arena, frontier, visited, lv, queue,
                       |NewStates(g, arena[|arena| - 1].state)|)
    ensures Levels(g, start, arena, frontier, visited, lv, queue)
  {
    if queue {
      var v := arena[|arena| - 1].state;
      forall u, t | u in visited && t in NewStates(g, u)
        ensures Lv(lv, t) <= Lv(lv, u) + 1
      {
        if u == v {
          var i :| 0 <= i < |NewStates(g, v)| && NewStates(g, v)[i] == t;
        }
      }
    }
  }

  // ---- reaching the goal

  /** Walking from a visited cell for fewer steps than separate its level from the
      queue's front level stays among the visited cells. */
  lemma {:induction false} WalkStaysVisited(g: Grid, visited: set<Coord>, frontier: seq<SearchNode>,
                                            lv: map<Coord, nat>, d: nat, from: Coord, path: seq<Coord>, to: Coord)
    requires Shaped(g) && Closed(g, visited, frontier, None) && LvClosed(g, visited, lv, None)
    requires forall k :: 0 <= k < |frontier| ==> d <= Lv(lv, frontier[k].state)
    requires from in visited && Walk(g, from, path, to) && Lv(lv, from) + |path| < d
    ensures to in visited
    decreases |path|
  {
    if path != [] {
      var c := path[0];
      NewStatesSpec(g, from);
      assert c in NewStates(g, from);
      assert Covered(g, visited, frontier, from);
      assert c !in States(frontier) by {
        forall k | 0 <= k < |frontier|
          ensures States(frontier)[k] != c
        {
        }
      }
      WalkStaysVisited(g, visited, frontier, lv, d, c, path[1..], to);
    }
  }

  /** The goal taken from the front of the queue: no walk from the start to it is shorter
      than its level. */
  lemma FrontIsNearest(g: Grid, start: Coord, goal: Coord, arena: seq<SearchNode>,
                       frontier: seq<SearchNode>, visited: set<Coord>, lv: map<Coord, nat>,
                       path: seq<Coord>)
    requires SearchState(g, start, goal, arena, frontier, visited)
    requires Closed(g, visited, frontier, None) && Levels(g, start, arena, frontier, visited, lv, true)
    requires frontier != [] && frontier[0].state == goal && Walk(g, start, path, goal)
    ensures Lv(lv, goal) <= |path|
  {
    var d := Lv(lv, goal);
    if |path| < d {
      assert forall k :: 0 <= k < |frontier| ==> d <= Lv(lv, frontier[k].state);
      assert start !in States(frontier) by {
        forall k | 0 <= k < |frontier|
          ensures States(frontier)[k] != start
        {
        }
      }
      WalkStaysVisited(g, visited, frontier, lv, d, start, path, goal);
      assert false;
    }
  }

  /** So the path its parents spell is a shortest one. */
  lemma GoalShortest(g: Grid, start: Coord, goal: Coord, arena: seq<SearchNode>,
                     frontier: seq<SearchNode>, visited: set<Coord>, lv: map<Coord, nat>)
    requires SearchState(g, start, goal, arena, frontier, visited)
    requires Closed(g, visited, frontier, None) && Levels(g, start, arena, frontier, visited, lv, true)
    requires frontier != [] && frontier[0].state == goal
    ensures Linked(arena) && LinkedBelow(frontier[0], |arena|)
    ensures forall path :: Walk(g, start, path, goal) ==> |ChainOf(arena, frontier[0])| <= |path|
  {
    GoalChain(g, start, goal, arena, frontier, visited, 0);
    LevelIsChainLength(arena, lv, frontier[0]);
    forall path | Walk(g, start, path, goal)
      ensures |ChainOf(arena, frontier[0])| <= |path|
    {
      FrontIsNearest(g, start, goal, arena, frontier, visited, lv, path);
    }
  }
}
