/** The cells of a rectangular grid and how many there are. */
module MazeCells {

  /** A cell as (x, y): column, then row. */
  type Coord = (int, int)

  /** Every cell of a width by height grid, row by row. */
  function Cells(width: nat, height: nat): set<Coord>
    decreases height
  {
    if height == 0 then {} else Cells(width, height - 1) + RowCells(width, height - 1)
  }

  function RowCells(width: nat, y: int): set<Coord>
    decreases width
  {
    if width == 0 then {} else RowCells(width - 1, y) + {(width - 1, y)}
  }

  lemma {:induction false} RowCellsMember(width: nat, y: int)
    ensures forall c :: c in RowCells(width, y) <==> 0 <= c.0 < width && c.1 == y
    decreases width
  {
    if width > 0 {
      RowCellsMember(width - 1, y);
    }
  }

  lemma {:induction false} RowCellsCard(width: nat, y: int)
    ensures |RowCells(width, y)| == width
    decreases width
  {
    if width > 0 {
      RowCellsCard(width - 1, y);
      RowCellsMember(width - 1, y);
      assert (width - 1, y) !in RowCells(width - 1, y);
    }
  }

  /** The cells of a grid are the pairs of a column and a row inside it. */
  lemma {:induction false} CellsMember(width: nat, height: nat)
    ensures forall c :: c in Cells(width, height) <==> 0 <= c.0 < width && 0 <= c.1 < height
    decreases height
  {
    if height > 0 {
      CellsMember(width, height - 1);
      RowCellsMember(width, height - 1);
    }
  }

  /** A grid has width times height cells. */
  lemma {:induction false} CellsCard(width: nat, height: nat)
    ensures |Cells(width, height)| == width * height
    decreases height
  {
    if height > 0 {
      CellsCard(width, height - 1);
      RowCellsCard(width, height - 1);
      CellsStep(width, height);
      RowsStep(|Cells(width, height)|, |Cells(width, height - 1)|, width, height);
    }
  }

  lemma CellsStep(width: nat, height: nat)
    requires height > 0
    ensures |Cells(width, height)| == |Cells(width, height - 1)| + |RowCells(width, height - 1)|
  {
    var above, row := Cells(width, height - 1), RowCells(width, height - 1);
    CellsMember(width, height - 1);
    RowCellsMember(width, height - 1);
    assert above * row == {};
  }

  lemma RowsStep(n: int, m: int, width: nat, height: nat)
    requires height > 0 && m == width * (height - 1) && n == m + width
    ensures n == width * height
  {
  }
}

/** The grid both maze scripts search (algorithms/1_pathfinding/maze.py and
    algorithms/maze/maze.py, whose grid code is the same): loading a text grid, the moves
    out of a cell, the Manhattan heuristic, walks through free cells, and printing. */
module MazeGrid {

  import opened PyCore
  import opened MazeCells

  /** `DIRS`: right, down, left, up. */
  const Dirs: seq<Coord> := [(1, 0), (0, 1), (-1, 0), (0, -1)]

  /** What `load` leaves in a `Maze`: the sizes, one row of obstacle flags per line, and
      the start and goal cells, absent when the text has no 'S' or no 'G'. */
  datatype Grid = Grid(width: nat, height: nat, obstacles: seq<seq<bool>>,
                       start: Option<Coord>, goal: Option<Coord>)

  predicate Shaped(g: Grid) {
    |g.obstacles| == g.height && forall y :: 0 <= y < g.height ==> |g.obstacles[y]| == g.width
  }

  predicate InBounds(g: Grid, c: Coord) {
    0 <= c.0 < g.width && 0 <= c.1 < g.height
  }

  /** A cell inside the grid and not an obstacle. */
  predicate Free(g: Grid, c: Coord)
    requires Shaped(g)
  {
    InBounds(g, c) && !g.obstacles[c.1][c.0]
  }

  /** A grid as `load` builds it: shaped, with start and goal on free cells when present. */
  predicate Loaded(g: Grid) {
    Shaped(g)
    && (g.start.Some? ==> Free(g, g.start.value))
    && (g.goal.Some? ==> Free(g, g.goal.value))
  }

  // ---------------------------------------------------------------------------------
  // loading

  /** The characters of a free cell; every other character is an obstacle. */
  predicate FreeChar(c: char) {
    c == 'S' || c == 'G' || c == ' '
  }

  function NewlineAt(s: string): (k: nat)
    ensures k <= |s| && (k < |s| ==> s[k] == '\n')
    ensures forall j :: 0 <= j < k ==> s[j] != '\n'
    decreases |s|
  {
    if s == [] || s[0] == '\n' then 0 else 1 + NewlineAt(s[1..])
  }

  /** The lines `readlines` gives, each with its final newline removed. */
  function FileLines(text: string): (r: seq<string>)
    ensures forall i :: 0 <= i < |r| ==> forall j :: 0 <= j < |r[i]| ==> r[i][j] != '\n'
    decreases |text|
  {
    if text == [] then []
    else
      var k := NewlineAt(text);
      if k == |text| then [text] else [text[..k]] + FileLines(text[k + 1..])
  }

  /** The rows before row y all reach column `width`, and so does row y up to column x. */
  predicate LongEnough(data: seq<string>, width: nat, y: nat, x: nat) {
    y <= |data| && (forall j :: 0 <= j < y ==> |data[j]| >= width) && (x > 0 ==> y < |data| && x <= |data[y]|)
  }

  /** The last cell holding `mark`, in row-major order, among the rows before y and the
      first x cells of row y. */
  function LastMark(data: seq<string>, width: nat, mark: char, y: nat, x: nat): Option<Coord>
    requires LongEnough(data, width, y, x) && x <= width
    decreases y, x
  {
    if x > 0 then
      if data[y][x - 1] == mark then Some((x - 1, y)) else LastMark(data, width, mark, y, x - 1)
    else if y > 0 then LastMark(data, width, mark, y - 1, width)
    else None
  }

  /** The cell `LastMark` reports holds the mark and no later cell does; it reports
      nothing exactly when no cell does. */
  lemma {:induction false} LastMarkSpec(data: seq<string>, width: nat, mark: char, y: nat, x: nat)
    requires LongEnough(data, width, y, x) && x <= width
    ensures var r := LastMark(data, width, mark, y, x);
      (r.None? <==> forall j, i :: Before(j, i, y, x, width) ==> !MarkAt(data, j, i, mark))
      && (r.Some? ==> Before(r.value.1, r.value.0, y, x, width) && MarkAt(data, r.value.1, r.value.0, mark))
      && (r.Some? ==> forall j, i :: Before(j, i, y, x, width) && Before(r.value.1, r.value.0, j, i, width)
                                     ==> !MarkAt(data, j, i, mark))
    decreases y, x
  {
    var r := LastMark(data, width, mark, y, x);
    if x > 0 {
      if data[y][x - 1] == mark {
        assert MarkAt(data, y, x - 1, mark) && Before(y, x - 1, y, x, width);
      } else {
        LastMarkSpec(data, width, mark, y, x - 1);
        assert forall j, i :: Before(j, i, y, x, width) ==>
          Before(j, i, y, x - 1, width) || (j == y && i == x - 1);
        assert !MarkAt(data, y, x - 1, mark);
      }
    } else if y > 0 {
      LastMarkSpec(data, width, mark, y - 1, width);
    }
  }

  /** Line j has `mark` at column i. */
  predicate MarkAt(data: seq<string>, j: int, i: int, mark: char) {
    0 <= j < |data| && 0 <= i < |data[j]| && data[j][i] == mark
  }

  /** Cell (i, j) comes before position (x, y) in row-major order, within the width. */
  predicate Before(j: int, i: int, y: int, x: int, width: int) {
    0 <= j && 0 <= i < width && (j < y || (j == y && i < x))
  }

  /** `load` on the lines of the file: the width is that of the first line and the height
      the number of lines; 'S', 'G' and ' ' are free and anything else is an obstacle; the
      start and the goal are the last 'S' and the last 'G'. An empty file, or a line
      shorter than the first, raises `IndexError`. */
  method Load(data: seq<string>) returns (r: Outcome<Grid>)
    ensures r.Raise? <==> data == [] || exists y :: 0 <= y < |data| && |data[y]| < |data[0]|
    ensures r.Raise? ==> r.error == IndexError
    ensures r.Return? ==> Loaded(r.value) && r.value.width == |data[0]| && r.value.height == |data|
    ensures r.Return? ==> forall y, x :: 0 <= y < |data| && 0 <= x < |data[0]| ==>
      (r.value.obstacles[y][x] <==> !FreeChar(data[y][x]))
    ensures r.Return? ==> r.value.start == LastMark(data, |data[0]|, 'S', |data|, 0)
    ensures r.Return? ==> r.value.goal == LastMark(data, |data[0]|, 'G', |data|, 0)
  {
    if data == [] {
      return Raise(IndexError);
    }
    var width := |data[0]|;
    var height := |data|;
    var obstacles: seq<seq<bool>> := [];
    var start: Option<Coord> := None;
    var goal: Option<Coord> := None;
    var y := 0;
    while y < height
      invariant 0 <= y <= height && |obstacles| == y && LongEnough(data, width, y, 0)
      invariant forall j :: 0 <= j < y ==> |obstacles[j]| == width
      invariant forall j, i :: 0 <= j < y && 0 <= i < width ==> (obstacles[j][i] <==> !FreeChar(data[j][i]))
      invariant start == LastMark(data, width, 'S', y, 0) && goal == LastMark(data, width, 'G', y, 0)
    {
      var row: seq<bool> := [];
      var x := 0;
      while x < width
        invariant 0 <= x <= width && |row| == x && LongEnough(data, width, y, x)
        invariant forall i :: 0 <= i < x ==> (row[i] <==> !FreeChar(data[y][i]))
        invariant start == LastMark(data, width, 'S', y, x) && goal == LastMark(data, width, 'G', y, x)
      {
        if x >= |data[y]| {
          return Raise(IndexError);
        }
        var c := data[y][x];
        if c == 'S' {
          start := Some((x, y));
          row := row + [false];
        } else if c == 'G' {
          goal := Some((x, y));
          row := row + [false];
        } else if c == ' ' {
          row := row + [false];
        } else {
          row := row + [true];
        }
        x := x + 1;
      }
      obstacles := obstacles + [row];
      y := y + 1;
    }
    var g := Grid(width, height, obstacles, start, goal);
    LastMarkSpec(data, width, 'S', height, 0);
    LastMarkSpec(data, width, 'G', height, 0);
    return Return(g);
  }

  // ---------------------------------------------------------------------------------
  // moves

  function Step(c: Coord, d: Coord): Coord {
    (c.0 + d.0, c.1 + d.1)
  }

  function Abs(n: int): nat {
    if n < 0 then -n else n
  }

  /** `heuristic`: the Manhattan distance, zero only from a cell to itself and at least
      the distance along either axis. */
  function Heuristic(a: Coord, b: Coord): (r: nat)
    ensures r == 0 <==> a == b
    ensures Abs(b.0 - a.0) <= r && Abs(b.1 - a.1) <= r
  {
    Abs(b.0 - a.0) + Abs(b.1 - a.1)
  }

  /** Two cells one unit step apart. */
  predicate Adjacent(a: Coord, b: Coord) {
    Heuristic(a, b) == 1
  }

  /** The moves `find_new_states` keeps from the k-th direction on: the neighbours inside
      the grid that are not obstacles, in `DIRS` order. */
  function NewStatesFrom(g: Grid, c: Coord, k: nat): seq<Coord>
    requires Shaped(g) && k <= |Dirs|
    decreases |Dirs| - k
  {
    if k == |Dirs| then []
    else
      var s := Step(c, Dirs[k]);
      (if Free(g, s) then [s] else []) + NewStatesFrom(g, c, k + 1)
  }

  function NewStates(g: Grid, c: Coord): seq<Coord>
    requires Shaped(g)
  {
    NewStatesFrom(g, c, 0)
  }

  /** `find_new_states`: the loop over `DIRS`. */
  method FindNewStates(g: Grid, c: Coord) returns (states: seq<Coord>)
    requires Shaped(g)
    ensures states == NewStates(g, c)
  {
    states := [];
    var k := 0;
    while k < |Dirs|
      invariant 0 <= k <= |Dirs|
      invariant states + NewStatesFrom(g, c, k) == NewStates(g, c)
    {
      var s := Step(c, Dirs[k]);
      if 0 <= s.0 < g.width && 0 <= s.1 < g.height && !g.obstacles[s.1][s.0] {
        assert states + NewStatesFrom(g, c, k) == (states + [s]) + NewStatesFrom(g, c, k + 1);
        states := states + [s];
      } else {
        assert NewStatesFrom(g, c, k) == NewStatesFrom(g, c, k + 1);
      }
      k := k + 1;
    }
    assert states + [] == states;
  }

  /** A candidate cell as `find_new_states` keeps it: itself when free, nothing otherwise. */
  function Kept(g: Grid, s: Coord): seq<Coord>
    requires Shaped(g)
  {
    if Free(g, s) then [s] else []
  }

  /** The loop of `find_new_states` tries the four steps of `DIRS` in turn: right, down,
      left, up. */
  lemma NewStatesOrder(g: Grid, c: Coord)
    requires Shaped(g)
    ensures NewStates(g, c) == Kept(g, (c.0 + 1, c.1)) + Kept(g, (c.0, c.1 + 1))
                               + Kept(g, (c.0 - 1, c.1)) + Kept(g, (c.0, c.1 - 1))
  {
    assert NewStatesFrom(g, c, 3) == Kept(g, (c.0, c.1 - 1));
    assert NewStatesFrom(g, c, 2) == Kept(g, (c.0 - 1, c.1)) + NewStatesFrom(g, c, 3);
    assert NewStatesFrom(g, c, 1) == Kept(g, (c.0, c.1 + 1)) + NewStatesFrom(g, c, 2);
    assert NewStatesFrom(g, c, 0) == Kept(g, (c.0 + 1, c.1)) + NewStatesFrom(g, c, 1);
  }

  /** `find_new_states` returns exactly the free cells one step away. */
  lemma NewStatesSpec(g: Grid, c: Coord)
    requires Shaped(g)
    ensures forall s :: s in NewStates(g, c) <==> Free(g, s) && Adjacent(c, s)
  {
    var right, down, left, up := (c.0 + 1, c.1), (c.0, c.1 + 1), (c.0 - 1, c.1), (c.0, c.1 - 1);
    NewStatesOrder(g, c);
    var r := Kept(g, right) + Kept(g, down) + Kept(g, left) + Kept(g, up);
    forall s
      ensures s in r <==> Free(g, s) && Adjacent(c, s)
    {
      assert s in r <==> s in Kept(g, right) || s in Kept(g, down) || s in Kept(g, left) || s in Kept(g, up);
      assert Adjacent(c, s) <==> s == right || s == down || s == left || s == up;
    }
  }

  // ---------------------------------------------------------------------------------
  // the heuristic

  /** The Manhattan distance is a metric: zero exactly on equal cells, symmetric, and
      never more than a detour through a third cell. */
  lemma HeuristicMetric(a: Coord, b: Coord, c: Coord)
    ensures Heuristic(a, b) == 0 <==> a == b
    ensures Heuristic(a, b) == Heuristic(b, a)
    ensures Heuristic(a, c) <= Heuristic(a, b) + Heuristic(b, c)
  {
  }

  /** The consistency condition the comment asks of a heuristic: between neighbouring cells
      the estimate drops by at most the step cost 1. */
  lemma HeuristicConsistent(a: Coord, b: Coord, goal: Coord)
    requires Adjacent(a, b)
    ensures Heuristic(a, goal) <= Heuristic(b, goal) + 1
  {
    HeuristicMetric(a, b, goal);
  }

  // ---------------------------------------------------------------------------------
  // walks

  /** `path` leads from `from` to `to` one step at a time through free cells; `from`
      itself is not part of it, as in `solution`. */
  predicate Walk(g: Grid, from: Coord, path: seq<Coord>, to: Coord)
    requires Shaped(g)
    decreases |path|
  {
    if path == [] then from == to
    else Adjacent(from, path[0]) && Free(g, path[0]) && Walk(g, path[0], path[1..], to)
  }

  /** A walk extended by one more free neighbour of its end. */
  lemma {:induction false} WalkSnoc(g: Grid, from: Coord, path: seq<Coord>, to: Coord, next: Coord)
    requires Shaped(g) && Walk(g, from, path, to) && Adjacent(to, next) && Free(g, next)
    ensures Walk(g, from, path + [next], next)
    decreases |path|
  {
    if path == [] {
      assert path + [next] == [next];
    } else {
      WalkSnoc(g, path[0], path[1..], to, next);
      assert (path + [next])[1..] == path[1..] + [next];
    }
  }

  /** The heuristic never overestimates: every walk is at least as long as the Manhattan
      distance between its ends. */
  lemma {:induction false} HeuristicAdmissible(g: Grid, from: Coord, path: seq<Coord>, to: Coord)
    requires Shaped(g) && Walk(g, from, path, to)
    ensures Heuristic(from, to) <= |path|
    decreases |path|
  {
    if path != [] {
      HeuristicAdmissible(g, path[0], path[1..], to);
      HeuristicConsistent(from, path[0], to);
    }
  }

  /** A set of cells closed under free steps holds the end of every walk from inside it. */
  lemma {:induction false} ClosedWalk(g: Grid, cells: set<Coord>, from: Coord, path: seq<Coord>, to: Coord)
    requires Shaped(g) && from in cells && Walk(g, from, path, to)
    requires forall v :: v in cells ==> forall t :: t in NewStates(g, v) ==> t in cells
    ensures to in cells
    decreases |path|
  {
    if path != [] {
      NewStatesSpec(g, from);
      ClosedWalk(g, cells, path[0], path[1..], to);
    }
  }

  // ---------------------------------------------------------------------------------
  // the cells of the grid

  /** The cells a search may expand. */
  function FreeCells(g: Grid): (r: set<Coord>)
    requires Shaped(g)
    ensures forall c :: c in r <==> Free(g, c)
  {
    CellsMember(g.width, g.height);
    set c | c in Cells(g.width, g.height) && Free(g, c)
  }

  /** A set of free cells has at most width times height members. */
  lemma FreeCellsBound(g: Grid, cells: set<Coord>)
    requires Shaped(g) && cells <= FreeCells(g)
    ensures |cells| <= |FreeCells(g)| <= g.width * g.height
  {
    var all := Cells(g.width, g.height);
    CellsCard(g.width, g.height);
    SubsetCard(cells, FreeCells(g));
    SubsetCard(FreeCells(g), all);
  }

  lemma SubsetCard<T>(a: set<T>, b: set<T>)
    requires a <= b
    ensures |a| <= |b|
  {
    assert b == a + (b - a);
    assert a * (b - a) == {};
  }

  // ---------------------------------------------------------------------------------
  // printing

  /** The character `print` writes for a cell: '#' for an obstacle, then 'S', 'G', '+'
      for a cell of the solution, and ' '. Comparing a free cell with a start or goal the
      file never set raises `AttributeError`. */
  function CellChar(g: Grid, solution: seq<Coord>, x: int, y: int): (r: Outcome<char>)
    requires Shaped(g) && 0 <= y < g.height && 0 <= x < g.width
    ensures r.Raise? ==> r.error == AttributeError
    ensures r.Return? ==> r.value in "#SG+ "
  {
    if g.obstacles[y][x] then Return('#')
    else if g.start.None? then Raise(AttributeError)
    else if g.start.value == (x, y) then Return('S')
    else if g.goal.None? then Raise(AttributeError)
    else if g.goal.value == (x, y) then Return('G')
    else if (x, y) in solution then Return('+')
    else Return(' ')
  }

  /** Some cell of the grid makes `print` raise. */
  predicate RenderFails(g: Grid)
    requires Shaped(g)
  {
    exists y, x :: 0 <= y < g.height && 0 <= x < g.width && CellChar(g, [], x, y).Raise?
  }

  /** `lines` are what `print` writes: one line per row, one character per cell. */
  predicate Rendered(g: Grid, solution: seq<Coord>, lines: seq<string>)
    requires Shaped(g)
  {
    |lines| == g.height
    && (forall y :: 0 <= y < g.height ==> |lines[y]| == g.width)
    && forall y, x :: 0 <= y < g.height && 0 <= x < g.width ==>
         CellChar(g, solution, x, y) == Return(lines[y][x])
  }

  lemma CellCharFails(g: Grid, solution: seq<Coord>, x: int, y: int)
    requires Shaped(g) && 0 <= y < g.height && 0 <= x < g.width
    ensures CellChar(g, solution, x, y).Raise? == CellChar(g, [], x, y).Raise?
  {
  }

  /** `print`: the rows top to bottom, each cell left to right. The first cell whose
      character cannot be decided raises; the rows and characters the source has already
      written by then are not part of the result. */
  method Render(g: Grid, solution: seq<Coord>) returns (r: Outcome<seq<string>>)
    requires Shaped(g)
    ensures r.Raise? <==> RenderFails(g)
    ensures r.Raise? ==> r.error == AttributeError
    ensures r.Return? ==> Rendered(g, solution, r.value)
  {
    var lines: seq<string> := [];
    var y := 0;
    while y < g.height
      invariant 0 <= y <= g.height && |lines| == y
      invariant forall j :: 0 <= j < y ==> |lines[j]| == g.width
      invariant forall j, i :: 0 <= j < y && 0 <= i < g.width ==>
        CellChar(g, solution, i, j) == Return(lines[j][i])
    {
      var line: string := [];
      var x := 0;
      while x < g.width
        invariant 0 <= x <= g.width && |line| == x
        invariant forall i :: 0 <= i < x ==> CellChar(g, solution, i, y) == Return(line[i])
      {
        var c := CellChar(g, solution, x, y);
        if c.Raise? {
          CellCharFails(g, solution, x, y);
          return Raise(AttributeError);
        }
        line := line + [c.value];
        x := x + 1;
      }
      lines := lines + [line];
      y := y + 1;
    }
    r := Return(lines);
    forall j, i | 0 <= j < g.height && 0 <= i < g.width
      ensures CellChar(g, [], i, j).Return?
    {
      CellCharFails(g, solution, i, j);
    }
  }

  /** Printing a loaded maze with no solution and reading the text back gives the same
      grid: `load` finds the same obstacles, the only 'S' at the start and the only 'G'
      at the goal. */
  lemma RenderReload(g: Grid, lines: seq<string>)
    requires Loaded(g) && g.start.Some? && g.goal.Some? && g.start != g.goal
    requires Rendered(g, [], lines)
    ensures lines != [] && forall y :: 0 <= y < |lines| ==> |lines[y]| == |lines[0]|
    ensures forall y, x :: 0 <= y < g.height && 0 <= x < g.width ==>
      (g.obstacles[y][x] <==> !FreeChar(lines[y][x]))
    ensures LastMark(lines, g.width, 'S', g.height, 0) == g.start
    ensures LastMark(lines, g.width, 'G', g.height, 0) == g.goal
  {
    var (sx, sy) := g.start.value;
    var (gx, gy) := g.goal.value;
    assert CellChar(g, [], sx, sy) == Return(lines[sy][sx]);
    assert CellChar(g, [], gx, gy) == Return(lines[gy][gx]);
    LastMarkSpec(lines, g.width, 'S', g.height, 0);
    LastMarkSpec(lines, g.width, 'G', g.height, 0);
    assert Before(sy, sx, g.height, 0, g.width) && MarkAt(lines, sy, sx, 'S');
    assert Before(gy, gx, g.height, 0, g.width) && MarkAt(lines, gy, gx, 'G');
    forall y, x | 0 <= y < g.height && 0 <= x < g.width
      ensures g.obstacles[y][x] <==> !FreeChar(lines[y][x])
      ensures MarkAt(lines, y, x, 'S') ==> (x, y) == g.start.value
      ensures MarkAt(lines, y, x, 'G') ==> (x, y) == g.goal.value
    {
      assert CellChar(g, [], x, y) == Return(lines[y][x]);
    }
  }
}
