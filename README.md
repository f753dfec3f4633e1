# Small exercises, verified

A Dafny model of the parts of a collection of small programming exercises that compute
something checkable:

- **Maze search.** There are two near-identical Python scripts. Each loads a text grid of
  obstacles with a start `S` and a goal `G`. Each searches it breadth-first,
  depth-first, or (in the first script only) with an A* variant, and prints the grid with
  the path found. The maze is a class whose `solution` and `explored_count` the searches
  update. The frontiers are a class over a sequence of nodes. The searches are `while`
  loops, proved against the grid's walks. The model proves that a path is returned
  exactly when one exists. It also proves that the path found by breadth-first search is
  a shortest one, and that no cell is expanded twice.
- **Tic-tac-toe minimax.** `terminal`, `actions`, the mutually recursive
  `min_value`/`max_value`, and the board reader. Each is a method proved against a
  minimax function, and that function is proved to be a true minimum or maximum over the
  moves.
- **Propositional logic.** The expression tree: constructor validation, evaluation under
  a model, the printer with its conditional brackets, symbol sets, and `add` on a
  conjunction or disjunction.
- **The INI parser**, over the list of lines read from the file.
- **The TODO scanner**, over the content of one file.
- **DataFile.** An ordered tree of named string values, with its text writer and its
  line reader. Write followed by Read is proved to give the tree back.
- **Combinatorics.py.** The counting formulas, proved equal to binomial coefficients,
  falling factorials and multinomials.
- **Itertools.hpp.** Each generator is modelled as the sequence it yields. The
  `std::prev_permutation` enumeration behind `combinations` is proved to list every
  k-subset exactly once.
- **Wrap.hpp, FixedPoint.hpp, caesar.c.** Range wrapping, the raw integer side of a
  fixed-point type, and the Caesar cipher program.

Python exceptions are the `Raise` case of `PyCore.Outcome`. C and C++ integer semantics
(truncating division, narrowing to a signed width) are written out in `CppArith`.
Console and file I/O become parameters and results: the lines of a file, the text
written.

Where the code has a quirk, the model follows the code:

- `parse_section` raises UnboundLocalError for a header on the last line.
- A blank line outside a section raises.
- A missing `]` drops the last character of the section name.
- The `"""` closer is searched from the opener itself, so docstring TODOs are never
  reported.
- A DataFile leaf without values is written as `name = ` with no line end.
- `And.symbols`/`Or.symbols` raise TypeError.
- A* never improves a node already in the frontier.
- `astar_search` falls off its end (`None`) instead of returning false.
- `wrap_shortdist` is documented as the short distance but returns the larger of the
  two wrapped differences. On [0, 360], 10 and 350 are 340 apart by it
  (`Wrap.ShortDistLongWay`). Only on a range [-h, h] is it the distance the comment
  describes (`Wrap.ShortDistSymmetricRange`).

## Model

| member | source | states |
|---|---|---|
| MazeGrid.Load | algorithms/1_pathfinding/maze.py:68-93 | raises IndexError exactly for no lines or a line shorter than the first; otherwise width is the first line's length, height the line count, a cell is free iff it is 'S', 'G' or ' ', and start/goal are the last 'S'/'G' in row-major order |
| MazeGrid.LastMarkSpec | algorithms/maze/maze.py:47-63 | the reported cell holds the mark and no later cell does; none is reported iff no cell holds it |
| MazeGrid.FindNewStates | algorithms/maze/maze.py:65-75 | the loop over DIRS yields the neighbour list NewStates |
| MazeGrid.NewStates | algorithms/1_pathfinding/maze.py:95-105 | the neighbour list `find_new_states` returns; its members and their order are stated by NewStatesSpec and NewStatesOrder |
| MazeGrid.NewStatesSpec | algorithms/1_pathfinding/maze.py:95-105 | a cell is among the neighbours returned iff it is a free in-bounds cell one unit step away |
| MazeGrid.NewStatesOrder | algorithms/1_pathfinding/maze.py:95-105 | the neighbours come in DIRS order (right, down, left, up), each kept only when free |
| MazeGrid.HeuristicMetric | algorithms/1_pathfinding/maze.py:55-59 | the Manhattan distance is zero exactly on equal cells, symmetric, and obeys the triangle inequality |
| MazeGrid.Heuristic | algorithms/1_pathfinding/maze.py:55-59 | the Manhattan distance is 0 only from a cell to itself and at least the distance along either axis |
| MazeGrid.HeuristicConsistent | algorithms/1_pathfinding/maze.py:292-296 | between neighbouring cells the heuristic drops by at most the step cost 1 |
| MazeGrid.HeuristicAdmissible | algorithms/1_pathfinding/maze.py:292-293 | the heuristic never exceeds the length of any walk between the two cells |
| MazeGrid.WalkSnoc | algorithms/1_pathfinding/maze.py:163-165 | a walk extended by a free neighbour of its end is a walk to that neighbour |
| MazeGrid.ClosedWalk | algorithms/maze/maze.py:110-114 | a set of cells closed under free steps contains the end of every walk starting inside it |
| MazeGrid.FreeCellsBound | algorithms/maze/maze.py:129-131 | any set of free cells has at most width times height members |
| MazeCells.CellsCard | algorithms/maze/maze.py:47-50 | the grid has width times height cells |
| MazeGrid.CellChar | algorithms/maze/maze.py:140-150 | the printed character is one of '#', 'S', 'G', '+', ' ', or AttributeError when start or goal is missing |
| MazeGrid.Render | algorithms/maze/maze.py:138-151 | print writes one line per row and one character per cell with precedence '#' > 'S' > 'G' > '+' > ' ', and raises AttributeError exactly when a free cell is reached without start or goal |
| MazeGrid.RenderReload | algorithms/1_pathfinding/maze.py:248-261 | loading the printed text of a maze without solution gives back the same obstacles, start and goal |
| MazeFrontier.AddOne | algorithms/1_pathfinding/maze.py:215 | `local_dist + 1` keeps infinity infinite and adds one to a finite distance |
| MazeFrontier.AnyState | algorithms/1_pathfinding/maze.py:37-38 | the generator in `contains` is true iff some node from the given position on holds the state |
| MazeFrontier.Frontier.constructor | algorithms/1_pathfinding/maze.py:34-35 | a new frontier is empty, a queue or a stack as asked |
| MazeFrontier.Frontier.Contains | algorithms/maze/maze.py:14-15 | true iff some stored node holds the state |
| MazeFrontier.Frontier.Empty | algorithms/maze/maze.py:23-24 | true iff no node is stored |
| MazeFrontier.Frontier.Push | algorithms/maze/maze.py:17-18 | the node is appended at the end |
| MazeFrontier.Frontier.Pop | algorithms/1_pathfinding/maze.py:43-52 | the queue removes and returns the oldest node, the stack the newest; an empty frontier raises IndexError and is unchanged |
| MazeFrontier.Frontier.MoveMinimumToHead | algorithms/1_pathfinding/maze.py:241-245 | the first node of least global distance is removed and reinserted at the front |
| MazeFrontier.MinIndex | algorithms/1_pathfinding/maze.py:242 | `min(..., key=global_dist)` picks the first node of least global distance |
| MazeFrontier.FirstMin | algorithms/1_pathfinding/maze.py:242 | the position returned holds a least global distance and every earlier node a strictly greater one |
| MazeFrontier.MinFromSpec | algorithms/1_pathfinding/maze.py:242 | the scan of `min` from a position on keeps the first least node |
| MazeFrontier.LessTotal | algorithms/1_pathfinding/maze.py:223 | Python's `<` on distances with infinity is a strict total order |
| MazeFrontier.Rotated | algorithms/1_pathfinding/maze.py:244-245 | `remove` then `insert(0, ...)` puts the m-th node first and keeps every other node in its relative order |
| MazeFrontier.RotatedPermutes | algorithms/1_pathfinding/maze.py:244-245 | moving a node to the front neither loses nor adds a node |
| MazeFrontier.HeadIsMinimum | algorithms/1_pathfinding/maze.py:235-245 | after the reordering the front node has the least global distance |
| MazeChains.ChainWalk | algorithms/1_pathfinding/maze.py:150-156 | following the parents of a node walks from the start to the node through free, 4-adjacent cells |
| MazeChains.ChainExtend | algorithms/maze/maze.py:123-125 | a node's parent chain does not change when more nodes are expanded |
| MazeChains.InitState | algorithms/maze/maze.py:105-108 | the frontier holding only the start node satisfies the search invariant |
| MazeChains.PopState | algorithms/maze/maze.py:117-131 | expanding a non-goal node keeps the frontier's states distinct and unvisited and leaves one fewer free cell unvisited |
| MazeChains.PushState | algorithms/maze/maze.py:134-136 | pushing a node for an unvisited neighbour outside the frontier keeps the invariant and covers that neighbour |
| MazeChains.SkipState | algorithms/maze/maze.py:134-135 | a neighbour already visited or waiting stays covered without a push |
| MazeChains.FinishState | algorithms/maze/maze.py:134-136 | once every neighbour is considered, every free neighbour of a visited cell is visited or in the frontier |
| MazeChains.VisitedBound | algorithms/1_pathfinding/maze.py:159-160 | the visited cells are free cells, so the expansions number at most width times height |
| MazeChains.Progress | algorithms/maze/maze.py:130-131 | each expansion leaves fewer unvisited free cells, so the loop terminates |
| MazeChains.NoWalk | algorithms/maze/maze.py:110-114 | when the frontier runs out, no walk leads from the start to the goal |
| MazeChains.GoalChain | algorithms/maze/maze.py:119-127 | the parent chain of the node popped on the goal walks from the start to the goal |
| MazeLayers.LevelIsChainLength | algorithms/maze/maze.py:119-127 | a node's breadth-first level is the length of its parent chain |
| MazeLayers.LevelsInit | algorithms/maze/maze.py:105-108 | the start node alone is at level 0 |
| MazeLayers.LevelsPop | algorithms/maze/maze.py:116-131 | popping the front of a queue keeps the levels ordered, never more than one apart |
| MazeLayers.LevelsPush | algorithms/maze/maze.py:134-136 | a pushed neighbour sits one level below the expanded node, at the back of the queue |
| MazeLayers.LevelsSkip | algorithms/maze/maze.py:134-135 | a skipped neighbour is at most one level below the expanded node |
| MazeLayers.LevelsFinish | algorithms/maze/maze.py:134-136 | after the loop every free neighbour of a visited cell is at most one level below it |
| MazeLayers.WalkStaysVisited | algorithms/maze/maze.py:98-99 | a walk shorter than the front level from a visited cell ends on a visited cell |
| MazeLayers.FrontIsNearest | algorithms/maze/maze.py:98-101 | when the queue's front holds the goal, no walk to the goal is shorter than its level |
| MazeLayers.GoalShortest | algorithms/1_pathfinding/maze.py:128-133 | the parent chain of the goal popped from a queue is no longer than any walk from start to goal |
| MazeAStar.Plus | algorithms/1_pathfinding/maze.py:228 | adding the heuristic keeps infinity infinite and adds to a finite distance |
| MazeAStar.LocalDistIsChainLength | algorithms/1_pathfinding/maze.py:215-228 | a scored node's local distance is the length of its parent chain and its global distance adds the heuristic |
| MazeAStar.GlobalDistAdmissible | algorithms/1_pathfinding/maze.py:199-201 | a node's global distance is at most the length of any walk through its own path to the goal |
| MazeAStar.NeighbourScored | algorithms/1_pathfinding/maze.py:219-228 | the `< inf` test always succeeds: every new node hangs off the expanded node one step further |
| MazeAStar.ScoredPush | algorithms/1_pathfinding/maze.py:232-233 | pushing a scored node keeps every frontier node scored |
| MazeAStar.PushScored | algorithms/1_pathfinding/maze.py:218-233 | the neighbour loop pushes scored nodes for exactly the uncovered neighbours and keeps the search invariant |
| MazeAStar.Reorder | algorithms/1_pathfinding/maze.py:241-245 | a non-empty frontier gets a node of least global distance at its front |
| MazeAStar.AStarPop | algorithms/1_pathfinding/maze.py:197-213 | expanding the front node keeps every node scored |
| MazeAStar.AStarExpandNext | algorithms/1_pathfinding/maze.py:196-245 | one turn returns the goal node with its path and distance, or keeps the A* invariant with fewer unvisited free cells |
| MazeAStar.AStarExplore | algorithms/1_pathfinding/maze.py:196-245 | the loop returns a node whose chain walks from start to goal, or nothing exactly when no walk exists |
| MazeAStar.AStarInit | algorithms/1_pathfinding/maze.py:191-194 | the start node at distance 0 with the heuristic as global distance satisfies the A* invariant |
| MazeSearch.PushNeighbours | algorithms/maze/maze.py:133-136 | the neighbour loop pushes a node for each neighbour neither visited nor waiting and keeps the levels ordered |
| MazeSearch.PushIfNew | algorithms/maze/maze.py:134-136 | one neighbour is pushed exactly when neither visited nor waiting, and the search invariant and level order still hold |
| MazeSearch.ExpandNext | algorithms/maze/maze.py:116-136 | one turn returns the goal node, shortest on a queue, or keeps the invariant with fewer unvisited free cells |
| MazeSearch.Explore | algorithms/maze/maze.py:110-136 | the loop returns a node whose chain walks from start to goal, shortest on a queue, or nothing exactly when no walk exists |
| MazeSearch.Maze.constructor | algorithms/maze/maze.py:33-36 | a loaded maze starts with an empty solution |
| MazeSearch.Maze.Print | algorithms/1_pathfinding/maze.py:248-261 | the printed lines render the grid and the current solution |
| MazeSearch.Maze.SaveSolution | algorithms/1_pathfinding/maze.py:203-208 | the solution becomes the parent chain of the goal node in start-to-goal order, without the start |
| MazeSearch.Maze.Search | algorithms/1_pathfinding/maze.py:118-169 | raises AttributeError iff start or goal is missing; true with a walk from start to goal in `solution`, shortest on a queue; false, with `solution` untouched, iff no walk exists; at most width times height expansions |
| MazeSearch.Maze.UninformedSearch | algorithms/1_pathfinding/maze.py:118-169 | as Search, breadth-first with BFS and depth-first with DFS; only the breadth-first walk is promised shortest |
| MazeSearch.Maze.AStarSearch | algorithms/1_pathfinding/maze.py:188-245 | raises AttributeError iff start or goal is missing; true with a walk from start to goal in `solution`; None (never false), with `solution` untouched, iff no walk exists; at most width times height expansions |
| MazeSearch.Maze.BreadthFirstSearch | algorithms/maze/maze.py:88-136 | true with a shortest walk from start to goal in `solution`; false, with `solution` untouched, iff no walk exists |
| TicTacToe.NewState | algorithms/2_minimax/tictactoe.py:15-26 | an empty 3x3 board unless one is given, and X to move unless a turn is given |
| TicTacToe.EmptyBeforeMembers | algorithms/2_minimax/tictactoe.py:70-73 | the cells listed up to a position are exactly the empty ones before it |
| TicTacToe.EmptyBeforeSorted | algorithms/2_minimax/tictactoe.py:70-73 | the cells listed come in strictly increasing row-major order |
| TicTacToe.EmptyCellsSpec | algorithms/2_minimax/tictactoe.py:67-75 | `actions` lists exactly the empty cells as (x, y), in row-major order |
| TicTacToe.EmptyCells | algorithms/2_minimax/tictactoe.py:67-75 | every cell `actions` lists lies on the 3x3 board |
| TicTacToe.Actions | algorithms/2_minimax/tictactoe.py:67-75 | the nested loops yield EmptyCells |
| TicTacToe.ThreeInARow | algorithms/2_minimax/tictactoe.py:36-51 | a line sums to -3 iff it holds three X, to +3 iff it holds three O |
| TicTacToe.TerminalNone | algorithms/2_minimax/tictactoe.py:29-34 | `terminal` gives None iff some cell is empty, even when a line is complete |
| TicTacToe.Terminal | algorithms/2_minimax/tictactoe.py:29-34 | `terminal` gives None iff some row still holds an empty cell |
| TicTacToe.TerminalEmpty | algorithms/2_minimax/tictactoe.py:30-31 | the list of actions is empty iff no row holds an empty cell |
| TicTacToe.DecideSpec | algorithms/2_minimax/tictactoe.py:42-64 | the checks from pair g on give X, O or N exactly when an X line comes first, an O line comes first, or no line is complete |
| TicTacToe.DecideStep | algorithms/2_minimax/tictactoe.py:42-51 | one pair of checks (row i and column i), X before O |
| TicTacToe.TerminalSpec | algorithms/2_minimax/tictactoe.py:42-64 | on a full board rows/columns index by index then the diagonals, X before O at each step, decide the winner; N when no line is complete |
| TicTacToe.Place | algorithms/2_minimax/tictactoe.py:89-90 | the deep-copied board with one cell set stays a 3x3 board |
| TicTacToe.PlaceCell | algorithms/2_minimax/tictactoe.py:89-92 | a move changes its own cell and no other, so the original board is untouched |
| TicTacToe.PlaceEmpties | algorithms/2_minimax/tictactoe.py:87-92 | each child board has exactly one fewer empty cell, which makes the recursion terminate |
| TicTacToe.MinOf | algorithms/2_minimax/tictactoe.py:84-95 | the running minimum is at most the start bound and every value, and is one of them |
| TicTacToe.MaxOf | algorithms/2_minimax/tictactoe.py:106-117 | the running maximum is at least the start bound and every value, and is one of them |
| TicTacToe.MinScore | algorithms/2_minimax/tictactoe.py:77-97 | the value of `min_value` lies in {-1, 0, 1} |
| TicTacToe.MaxScore | algorithms/2_minimax/tictactoe.py:99-119 | the value of `max_value` lies in {-1, 0, 1} |
| TicTacToe.XReplies | algorithms/2_minimax/tictactoe.py:87-95 | one value per action, each in {-1, 0, 1} |
| TicTacToe.OReplies | algorithms/2_minimax/tictactoe.py:109-117 | one value per action, each in {-1, 0, 1} |
| TicTacToe.MinOfStep | algorithms/2_minimax/tictactoe.py:95 | one turn of `minima = min(minima, ...)` |
| TicTacToe.MaxOfStep | algorithms/2_minimax/tictactoe.py:117 | one turn of `maxima = max(maxima, ...)` |
| TicTacToe.MinValue | algorithms/2_minimax/tictactoe.py:77-97 | the loop over the actions computes MinScore |
| TicTacToe.MaxValue | algorithms/2_minimax/tictactoe.py:99-119 | the loop over the actions computes MaxScore |
| TicTacToe.MinScoreBound | algorithms/2_minimax/tictactoe.py:87-95 | every X move's `max_value` bounds `min_value` from above |
| TicTacToe.MinScoreAttained | algorithms/2_minimax/tictactoe.py:87-97 | some X move attains `min_value` |
| TicTacToe.MinScoreIsMinimum | algorithms/2_minimax/tictactoe.py:84-97 | before the end, `min_value` is the minimum over all X moves of `max_value` of the child board |
| TicTacToe.MaxScoreBound | algorithms/2_minimax/tictactoe.py:109-117 | every O move's `min_value` bounds `max_value` from below |
| TicTacToe.MaxScoreAttained | algorithms/2_minimax/tictactoe.py:109-119 | some O move attains `max_value` |
| TicTacToe.MaxScoreIsMaximum | algorithms/2_minimax/tictactoe.py:106-119 | before the end, `max_value` is the maximum over all O moves of `min_value` of the child board |
| TicTacToe.Simulate | algorithms/2_minimax/tictactoe.py:126-135 | the announced winner is the minimax value for the player to move |
| TicTacToe.ConstructRawState | algorithms/2_minimax/tictactoe.py:138-150 | the nested loops compute RawBoard |
| TicTacToe.RowOf | algorithms/2_minimax/tictactoe.py:144-148 | a row has at most as many cells as characters read |
| TicTacToe.RowOfKnown | algorithms/2_minimax/tictactoe.py:144-148 | three known characters give a full row, 'x' to X, 'o' to O, ' ' to N |
| TicTacToe.RawBoardSpec | algorithms/2_minimax/tictactoe.py:138-150 | reading raises IndexError iff fewer than three lines or a line shorter than three; a board of known characters maps cell by cell |
| TicTacToe.RawBoard | algorithms/2_minimax/tictactoe.py:138-150 | the only error is IndexError, and a board read has three rows of at most three cells |
| TicTacToe.RawBoardShort | algorithms/2_minimax/tictactoe.py:145-148 | any other character is skipped, leaving a row too short for a 3x3 board |
| TicTacToe.RowOfShort | algorithms/2_minimax/tictactoe.py:145-148 | one skipped character leaves fewer cells than characters read |
| Logic.Validate | logic/logic.py:18-21 | raises Exception exactly for a non-expression |
| Logic.ValidateAll | logic/logic.py:79-83 | succeeds iff every operand is an expression, giving them in order; raises Exception otherwise |
| Logic.MakeSymbol | logic/logic.py:38-43 | a symbol is built iff the name is alphanumeric, otherwise Exception |
| Logic.MakeNot | logic/logic.py:61-63 | built iff the operand is an expression |
| Logic.MakeAnd | logic/logic.py:79-83 | built iff every operand is an expression, keeping them in order |
| Logic.MakeOr | logic/logic.py:106-110 | built iff every operand is an expression, keeping them in order |
| Logic.MakeImplication | logic/logic.py:134-139 | built iff both sides are expressions |
| Logic.MakeBiconditional | logic/logic.py:161-166 | built iff both sides are expressions |
| Logic.Eval | logic/logic.py:45-49 | every failure of `eval` is a plain Exception: the base class's (lines 2-4) or a symbol missing from the model |
| Logic.EvalAll | logic/logic.py:85-86 | a failing conjunct's Exception is the only failure |
| Logic.EvalAny | logic/logic.py:112-113 | a failing disjunct's Exception is the only failure |
| Logic.EvalAllTrue | logic/logic.py:85-86 | a conjunction is true iff every conjunct is true; the empty one is true |
| Logic.EvalAllFalse | logic/logic.py:85-86 | a conjunction is false iff some conjunct is false after only true ones (`all` stops there) |
| Logic.EvalAnyTrue | logic/logic.py:112-113 | a disjunction is true iff some disjunct is true after only false ones |
| Logic.EvalAnyFalse | logic/logic.py:112-113 | a disjunction is false iff every disjunct is false; the empty one is false |
| Logic.DecidedAtShift | logic/logic.py:85-86 | the deciding operand of a list with a non-deciding head is the tail's one shifted by one |
| Logic.Connectives | logic/logic.py:65-66 | Not is negation, Implication is not-a-or-c, Biconditional is equality and equals the conjunction of both implications (also lines 141-145 and 168-172) |
| Logic.EvalDependsOnSymbols | logic/logic.py:45-49 | models that agree on an expression's symbols give it the same value or the same error |
| Logic.EvalDefined | logic/logic.py:45-49 | a model naming every symbol evaluates an expression without raising |
| Logic.Join | logic/logic.py:92 | joining no part gives the empty string and one part gives that part |
| Logic.Str | logic/logic.py:51-69 | a symbol prints as its name and a negation begins with the sign "¬" |
| Logic.Parenthesize | logic/logic.py:24-34 | the string is returned unchanged iff it is empty, all letters or a Not; otherwise it is bracketed |
| Logic.ParenthesizeCases | logic/logic.py:68-69 | a negation prints as the sign and its operand; an alphanumeric symbol with a digit is bracketed, an alphabetic one is not |
| Logic.SingletonPrintsAsOperand | logic/logic.py:88-90 | a one-operand And or Or prints as its operand |
| Logic.PairPrints | logic/logic.py:88-92 | two operands print bracketed around " ∧ " or " ∨ " (also lines 115-119) |
| Logic.Union | logic/logic.py:156-157 | the union of two symbol sets, raising the first error |
| Logic.Symbols | logic/logic.py:98-99 | the only error `symbols()` raises is the TypeError of `set.union` on a generator (also lines 125-126) |
| Logic.SymbolsDefined | logic/logic.py:57-58 | `symbols()` succeeds iff the tree has no And or Or, whose `set.union` on a generator raises (lines 98-99, 125-126) |
| Logic.Junction.constructor | logic/logic.py:79-83 | a conjunction or disjunction object holds the validated operands in order |
| Logic.Junction.Value | logic/logic.py:78-130 | the object stands for an And exactly when it is a conjunction, over its current operands |
| Logic.Junction.Add | logic/logic.py:101-103 | `add` validates, then appends an expression at the end; a non-expression raises and changes nothing |
| Logic.EvalAllAppend | logic/logic.py:85-86 | after `add`, a conjunction is evaluated on the new operand only when every earlier one is true |
| Logic.EvalAnyAppend | logic/logic.py:112-113 | after `add`, a disjunction is evaluated on the new operand only when every earlier one is false |
| IniParser.SkipSpaces | inifileparser/main.py:9-14 | the first position at or after index whose character is not in SPACES, or -1 exactly when there is none |
| IniParser.SkipWhitespaces | inifileparser/main.py:9-14 | the while loop computes SkipSpaces |
| IniParser.IsComment | inifileparser/main.py:16-17 | true iff the character is ';' or '#'; a negative index reads from the end and an index out of range raises IndexError |
| PyCore.Index | inifileparser/main.py:17 | `s[i]` reads from the front for 0 <= i < len(s), from the end for a negative index, and raises IndexError iff i is outside both |
| IniParser.Classify | inifileparser/main.py:24-31 | a line is blank exactly when it has only SPACES |
| IniParser.ClassifyProperty | inifileparser/main.py:36-47 | a property's name is the stripped text before the first '=' and its value the stripped text after it, which is not empty |
| IniParser.FindEquals | inifileparser/main.py:36 | `find('=')` is the position of the first '=' |
| IniParser.ReadLine | inifileparser/main.py:24-47 | the body of the loop classifies one line |
| IniParser.ReadKind | inifileparser/main.py:23-47 | the loop reads line p as Classify does |
| IniParser.SectionEnd | inifileparser/main.py:33-34 | the first header or malformed line at or after index, or the line count |
| IniParser.SectionEndIs | inifileparser/main.py:33-34 | a position with no stopping line before it and a stopping line at it is the section end |
| IniParser.SectionOf | inifileparser/main.py:20-49 | a returned end index lies between the start index and the line count |
| IniParser.Section | inifileparser/main.py:20-49 | a section that parses starts on an existing line and ends between its start and the line count |
| IniParser.ParseSection | inifileparser/main.py:20-49 | computes Section: the properties up to the next header and its index, SyntaxError for a line without '=' or with '=' last, UnboundLocalError with no line left |
| IniParser.PropsDefined | inifileparser/main.py:41-47 | a name is a property iff some line of the section defines it |
| IniParser.PropsLastWins | inifileparser/main.py:47 | a duplicate key takes the value of its last definition |
| IniParser.ParseIniFile | inifileparser/main.py:52-76 | the loop over the lines computes IniFrom, and the index strictly increases, so it terminates |
| IniParser.IniFrom | inifileparser/main.py:62-76 | a section read earlier is never dropped by the lines after it |
| IniParser.SectionsFromHeaders | inifileparser/main.py:62-69 | every section is named by the text between a header's '[' and the next ']' |
| IniParser.OutsideSection | inifileparser/main.py:58-74 | outside a section a property or malformed line raises SyntaxError, an empty line IndexError, a blank one SyntaxError, and a comment is skipped |
| IniParser.Example | inifileparser/main.py:52-76 | a section with a comment, a blank line and a value containing '=' parses to one property |
| TodoFinder.NextComment | TodoFinder.py:24-34 | a comment found starts at or after start and ends at or after it, before the end of the content |
| TodoFinder.FindNextComment | TodoFinder.py:24-34 | the loop over the table computes NextComment |
| PyCore.Find | TodoFinder.py:25-27 | `str.find` gives the first occurrence at or after start, and -1 iff there is none |
| PyCore.StripIsInfix | TodoFinder.py:49 | `strip` keeps a stripped infix of the string with only whitespace removed around it |
| PyCore.StripOfStripped | TodoFinder.py:49 | a string without surrounding whitespace is left unchanged by `strip` |
| TodoFinder.NextCommentNone | TodoFinder.py:24-34 | None iff no opener of the table occurs at or after start |
| TodoFinder.NextCommentFirstStyle | TodoFinder.py:25-34 | the first style in table order that occurs wins; the end is its closer's position from the opener, or the last index without one |
| TodoFinder.LineCommentFirst | TodoFinder.py:13-34 | with the C++ table a later `//` wins over an earlier `/*` |
| TodoFinder.DocstringEndsAtOpener | TodoFinder.py:24-34 | for `"""` the closer search starts at the opener, so the comment ends where it begins |
| TodoFinder.Item | TodoFinder.py:46-52 | an item is recorded only when non-empty |
| TodoFinder.ItemSource | TodoFinder.py:46-52 | an item comes from a "TODO:" at or after the comment's start and before its end, is the stripped text from after it through the end position |
| TodoFinder.TodosStep | TodoFinder.py:44-54 | the scan position strictly increases |
| TodoFinder.ReadItem | TodoFinder.py:45-52 | the loop body appends the comment's item, if any |
| TodoFinder.ParseStep | TodoFinder.py:44-54 | one turn keeps the collected items followed by the rest equal to the total |
| TodoFinder.Parse | TodoFinder.py:37-56 | the loop collects exactly the items of the successive comments, in discovery order |
| TodoFinder.TodosFrom | TodoFinder.py:44-54 | what `parse` collects from a position on: every item is non-empty and stripped |
| TodoFinder.DocstringTodosLost | TodoFinder.py:37-56 | with the Python table, content without '#' yields no item at all |
| DataFiles.SetAt | DataFile.hpp:87-93 | the value list grows to max(size, idx + 1) |
| DataFiles.SetAtSpec | DataFile.hpp:87-93 | s is stored at idx, every other value kept, the gap filled with empty strings |
| DataFiles.Digits | DataFile.hpp:100-103 | `to_string` writes a non-empty run of decimal digits |
| DataFiles.DigitRun | DataFile.hpp:105-108 | the run of digits at the front of a string |
| DataFiles.SkipSpaces | DataFile.hpp:105-108 | `stoll` skips leading whitespace |
| DataFiles.DigitsValueOfDigits | DataFile.hpp:100-108 | the digits written for n read back as n |
| DataFiles.StollOfIntToString | DataFile.hpp:100-108 | `stoll` reads back what `to_string` writes, for every long long |
| DataFiles.StollEmpty | DataFile.hpp:105-108 | a string without digits throws `invalid_argument` |
| DataFiles.StollBool | DataFile.hpp:125-128 | a number reads as true iff it is not zero, and the conversion throws as `stoll` does |
| DataFiles.Names | DataFile.hpp:79 | the children's names in insertion order |
| DataFiles.Lookup | DataFile.hpp:137-143 | the position of the first child with the key, -1 iff there is none |
| DataFiles.SelectChild | DataFile.hpp:135-144 | the selected position holds a child with the key |
| DataFiles.SelectSpec | DataFile.hpp:135-144 | a new key appends an empty child at the end; an existing key changes nothing; names stay distinct |
| DataFiles.SetChild | DataFile.hpp:248 | storing into a child keeps the node's own values |
| DataFiles.DistinctNamesCard | DataFile.hpp:297-300 | distinct names are as many as the children |
| DataFiles.KeysAppend | DataFile.hpp:139-140 | appending a child adds its name to the names |
| DataFiles.DataFile.constructor | DataFile.hpp:48 | a new object has no values, no children and no keys |
| DataFiles.DataFile.SetString | DataFile.hpp:87-93 | the values become SetAt of the old ones and `String(idx)` then returns the stored string; the children are unchanged |
| DataFiles.DataFile.String | DataFile.hpp:95-98 | the value returned is one of the stored values |
| DataFiles.DataFile.SetInt | DataFile.hpp:100-103 | stores the decimal text of the number, which `Int(idx)` then reads back as the number |
| DataFiles.DataFile.Int | DataFile.hpp:105-108 | a parsed value is within the long long range |
| DataFiles.DataFile.SetBool | DataFile.hpp:120-123 | stores "1" or "0"; at index 0 `Bool()` then reads back the flag, elsewhere `Bool()` is unchanged |
| DataFiles.DataFile.Bool | DataFile.hpp:125-128 | the first value converts iff `stoll` parses it, and is true iff the number is not zero |
| DataFiles.DataFile.HasProperty | DataFile.hpp:130-133 | true iff the name was ever passed to `operator[]` |
| DataFiles.DataFile.Select | DataFile.hpp:135-144 | a new key appends an empty child at the end and maps the key to its position; an existing key returns the same child and changes nothing |
| DataFiles.DataFile.CountValues | DataFile.hpp:292-295 | the number of values |
| DataFiles.DataFile.CountObjects | DataFile.hpp:297-300 | the number of distinct keys ever passed to `operator[]` |
| DataFiles.IntRoundTrip | DataFile.hpp:100-108 | `Int(idx)` after `SetInt(n, idx)` returns n |
| DataFiles.BoolRoundTrip | DataFile.hpp:120-128 | `Bool()` after `SetBool(b)` returns b; a flag stored elsewhere leaves the first value alone |
| DataFileIO.AddTabs | DataFile.hpp:150-154 | one tab per level of depth |
| DataFileIO.WriteValues | DataFile.hpp:164-169 | each value followed by ", ", and ";\n" after the last |
| DataFileIO.WriteNode | DataFile.hpp:148-184 | the recursive lambda writes every child in insertion order: a leaf as name = values, a node as name, '{', its children one level deeper, '}' |
| DataFileIO.ChildTextStep | DataFile.hpp:156-183 | the text of the children is that of the first followed by that of the rest |
| DataFileIO.Write | DataFile.hpp:146-193 | the text written is WriteText of the tree |
| DataFileIO.TokenizeValue | DataFile.hpp:230-270 | the character loop computes Tokenize |
| DataFileIO.StoreTokens | DataFile.hpp:263-267 | token k, trimmed, is stored at index k of the named child |
| DataFileIO.StoreValue | DataFile.hpp:243-270 | every token list is stored in turn |
| DataFileIO.ReadOneLine | DataFile.hpp:213-284 | the body of the read loop computes ReadLine |
| DataFileIO.Read | DataFile.hpp:195-290 | the object after reading the lines is ReadTree of the old tree, with names still distinct |
| DataFileIO.Install | DataFile.hpp:139-140 | the object holds the tree with each child name mapped to its position |
| DataFileIO.Index | DataFile.hpp:80 | each name of the children maps to its position |
| DataFileIO.ReadLineDistinct | DataFile.hpp:213-284 | reading a line keeps the children's names distinct |
| DataFileText.Tabs | DataFile.hpp:150-154 | the indentation is that many tab characters |
| DataFileText.WriteText | DataFile.hpp:146-191 | the text written is empty iff the root has no children |
| DataFileText.Lines | DataFile.hpp:211-214 | `getline` splits the text into the lines between newlines |
| DataFileText.TrimRight | DataFile.hpp:197-201 | trimming leaves no trailing whitespace |
| DataFileText.TrimAround | DataFile.hpp:197-201 | trimming removes exactly the surrounding whitespace |
| DataFileText.TrimOfTrimmed | DataFile.hpp:197-201 | trimming a trimmed string changes nothing |
| DataFileText.TokenizeAppend | DataFile.hpp:233-259 | the token loop over a + b continues from where a left it |
| DataFileText.TokenizePlain | DataFile.hpp:233-259 | a value without quotes, commas or semicolons is one token |
| DataFileText.Tokenize | DataFile.hpp:230-270 | an empty value stores one empty token, and the undefined `back()` after a clearing needs a ';' in the value |
| DataFileText.TokenizeWithoutSemicolon | DataFile.hpp:230-266 | without a ';' the token list is never cleared, so the loop is always defined |
| DataFileText.TokenizeValues | DataFile.hpp:233-259 | the text `Write` prints for values splits back into those values |
| DataFileText.TokenizeValuesLine | DataFile.hpp:227-259 | the value part of a written leaf line tokenizes to its values |
| DataFileText.StoreFromLast | DataFile.hpp:263-267 | storing a token list leaves the child with exactly those values |
| DataFileText.StoreNewLeaf | DataFile.hpp:243-267 | storing a written leaf's tokens into a new name appends that leaf |
| DataFileText.FirstEquals | DataFile.hpp:221 | `find_first_of('=')` is the first '=' or -1 |
| DataFileText.ReadLine | DataFile.hpp:214-285 | one line moves the stack by at most one level; once the bottom node is popped no line changes the tree |
| DataFileText.ReadLinesAppend | DataFile.hpp:211-286 | reading a + b continues from where a left the reader |
| DataFileText.ReadTree | DataFile.hpp:195-290 | reading only blank lines leaves the tree as it was |
| DataFileText.ReadBlankLines | DataFile.hpp:215-219 | blank lines leave the reader as it was |
| DataFileText.LeafLineRead | DataFile.hpp:221-270 | a written leaf line stores the leaf's values in the child of that name |
| DataFileText.OpenLineRead | DataFile.hpp:274-275 | a '{' line descends into the child named by the last bare name |
| DataFileText.CloseLineRead | DataFile.hpp:278-279 | a '}' line returns to the parent |
| DataFileText.ReadChildren | DataFile.hpp:211-286 | reading the lines written for the children appends those children |
| DataFileText.WrittenLines | DataFile.hpp:148-184 | the lines of the written text are those of the children and a last empty one |
| DataFileText.WriteReadRoundTrip | DataFile.hpp:146-290 | reading what `Write` printed for a tree of non-empty leaves and nodes with only children, with plain names and values, gives the tree back |
| Combinatorics.Fact | Combinatorics.py:29 | a factorial is at least 1 |
| Combinatorics.PyFactorial | Combinatorics.py:29 | `math.factorial` raises ValueError exactly for negative arguments |
| Combinatorics.AccomodationsRepeat | Combinatorics.py:111-116 | n ** k; a negative exponent gives the reciprocal float, and ZeroDivisionError iff n is 0 |
| Combinatorics.PermutationsRepeat | Combinatorics.py:46-60 | no counts give 0; a negative count raises ValueError; otherwise the multinomial coefficient |
| Combinatorics.BinomFactorial | Combinatorics.py:63-71 | n! = k! (n-k)! C(n, k) |
| Combinatorics.PermutationsNoRepeat | Combinatorics.py:32-39 | n distinct items have n! orders; a negative n raises ValueError and nothing else does |
| Combinatorics.CombinationsNoRepeat | Combinatorics.py:66-71 | the formula gives C(n, k) (Pascal's rule), and raises ValueError iff k is outside 0..n |
| Combinatorics.CombinationsRepeat | Combinatorics.py:77-82 | the formula gives C(n + k - 1, k), and raises ValueError iff k < 0 or n < 1 |
| Combinatorics.Combinations | Combinatorics.py:85-95 | a positive k gives C(n, k) or ValueError when k > n; any other k gives C(n - k - 1, -k) (1 for k = 0), or ValueError when n < 1 |
| Combinatorics.FactorialSplit | Combinatorics.py:99-107 | n! is the falling factorial of k terms times (n-k)! |
| Combinatorics.AccomodationsNoRepeat | Combinatorics.py:102-107 | the formula gives the falling factorial n (n-1) ... (n-k+1), and raises ValueError iff n < 0 or k > n |
| Combinatorics.Accomodations | Combinatorics.py:119-131 | a positive k counts arrangements without repetition, any other k words of length -k over n letters |
| Combinatorics.MultinomialFactorial | Combinatorics.py:43-60 | (c1 + ... + cm)! divided by c1! ... cm! is exactly the multinomial coefficient |
| Combinatorics.DoctestPermutationsNoRepeat | Combinatorics.py:33-39 | the doctests 5 -> 120 and 6 -> 720 |
| Combinatorics.DoctestCombinations | Combinatorics.py:67-92 | the doctests (3, 50) -> 19600 and (7, 3) / (-7, 3) -> 36 |
| Combinatorics.DoctestAccomodations | Combinatorics.py:103-126 | the doctests (3, 90) -> 704880 and (8, 62) / (-8, 62) -> 218340105584896 |
| Combinatorics.DoctestPermutationsRepeat | Combinatorics.py:47-50 | the doctest (2, 1, 1, 1, 1, 1, 1) -> 20160 |
| Itertools.Accumulate | Itertools.hpp:139-159 | with an initial value, it and then each running total, n + 1 items; without, the running totals from the first element, nothing for empty input |
| Itertools.FoldLeft | Itertools.hpp:139-159 | the running total of no element is the start value, of one element func(start, element) |
| Itertools.FoldLeftAppend | Itertools.hpp:154-158 | folding xs + ys continues from the total of xs |
| Itertools.AccumulateStep | Itertools.hpp:154-158 | each total is func of the previous total and the next element |
| Itertools.Batched | Itertools.hpp:162-179 | nothing for length < 1; otherwise chunks of exactly `length` that concatenate to a prefix of the input, shorter than `length` by less than a chunk |
| Itertools.Chain | Itertools.hpp:182-187 | the concatenation of the inner ranges in order |
| Itertools.Concat | Itertools.hpp:182-187 | every inner range fits in the chain |
| Itertools.ConcatAppend | Itertools.hpp:182-187 | chaining one more range appends its elements |
| Itertools.ConcatMembership | Itertools.hpp:182-187 | an element is chained iff it is in one of the inner ranges |
| Itertools.ConcatLength | Itertools.hpp:182-187 | chaining adds up the lengths |
| Itertools.Combinations | Itertools.hpp:190-214 | nothing when length exceeds the size; otherwise C(size, length) combinations, the t-th selecting the positions of the t-th selector vector |
| Itertools.Select | Itertools.hpp:203-208 | the inner loop pushes exactly the elements whose selector is non-zero, in order |
| Itertools.Positions | Itertools.hpp:204-208 | the selected positions, strictly increasing |
| Itertools.SelectedAtPositions | Itertools.hpp:204-208 | a combination lists the elements at the selected positions, in their original order |
| Itertools.PositionsCount | Itertools.hpp:198-199 | a 0/1 vector with k ones selects k positions |
| Itertools.OnesSnoc | Itertools.hpp:198-199 | appending a selector adds one iff it is 1 |
| Itertools.CombinationLength | Itertools.hpp:190-214 | every combination has exactly `length` elements |
| Itertools.Compress | Itertools.hpp:217-227 | the elements whose selector is true, up to the end of the shorter range |
| Itertools.Compressed | Itertools.hpp:217-227 | never more elements than data, and all of data when every selector is true |
| Itertools.CompressedMembership | Itertools.hpp:217-227 | an element is kept iff some selected position holds it |
| Itertools.DropWhile | Itertools.hpp:230-245 | a suffix of the input, preceded only by elements satisfying the predicate, starting with one that fails it |
| Itertools.FilterFalse | Itertools.hpp:248-255 | the elements for which the predicate is false, in order |
| Itertools.Rejected | Itertools.hpp:248-255 | no more elements than the input, and none satisfying the predicate |
| Itertools.RejectedMultiset | Itertools.hpp:248-255 | each failing element survives as often as it occurs, each passing one not at all |
| Itertools.RejectedIdempotent | Itertools.hpp:248-255 | filtering twice removes nothing more |
| StdPermutation.Reverse | Itertools.hpp:213 | the reversal of a sequence |
| StdPermutation.LastDescentBefore | Itertools.hpp:213 | the last descent before a bound, or -1 when there is none |
| StdPermutation.LastDescent | Itertools.hpp:213 | the last index i with v[i] > v[i + 1], or -1 |
| StdPermutation.LastSmallerBefore | Itertools.hpp:213 | the last index below a bound holding a value smaller than the pivot, or -1 |
| StdPermutation.LastSmaller | Itertools.hpp:213 | the last index holding a value smaller than the pivot, or -1 |
| StdPermutation.SwapAndReverse | Itertools.hpp:213 | swapping v[i] with v[j] and reversing the tail rearranges v: same length and multiset, the prefix before i unchanged and v[j] moved to i |
| StdPermutation.PrevPermutation | Itertools.hpp:213 | `prev_permutation` reports true iff the vector has a descent, and leaves a rearrangement of it (same multiset) |
| StdPermutation.PrevPermutationOrder | Itertools.hpp:213 | with a descent the result comes before the input in lexicographic order; without one the input is sorted ascending and the result descending |
| StdPermutation.ReversePermutes | Itertools.hpp:213 | reversal keeps the multiset of elements |
| StdPermutation.NoDescentSorted | Itertools.hpp:213 | a vector without a descent is sorted ascending |
| StdPermutation.BitsFirst | Itertools.hpp:198-199 | the enumeration starts at 1^k 0^(n-k), the vector `std::fill` sets up |
| StdPermutation.BitsFinal | Itertools.hpp:213 | the enumeration ends at 0^(n-k) 1^k |
| StdPermutation.IndicatorFirst | Itertools.hpp:198-199 | the first selector vector is 1^k 0^(n-k) |
| StdPermutation.IndicatorFinal | Itertools.hpp:213 | the last selector vector is 0^(n-k) 1^k |
| StdPermutation.PrevPermutationPrepend | Itertools.hpp:213 | stepping a vector with a descent leaves a prepended head alone |
| StdPermutation.PrevPermutationHandOver | Itertools.hpp:213 | 1 0^z 1^o steps to 0 1^(o+1) 0^(z-1) |
| StdPermutation.PrevPermutationSorted | Itertools.hpp:213 | 0^z 1^o has no previous permutation, which ends the loop |
| StdPermutation.IndicatorStep | Itertools.hpp:201-213 | each selector vector but the last steps to the next one |
| StdPermutation.IndicatorLast | Itertools.hpp:201-213 | the last selector vector ends the enumeration |
| StdPermutation.BitsShape | Itertools.hpp:198-213 | every vector has n entries, all 0 or 1, with k ones |
| StdPermutation.BitsDistinct | Itertools.hpp:201-213 | no vector is enumerated twice |
| StdPermutation.BitsComplete | Itertools.hpp:201-213 | every choice of k of the n positions is enumerated |
| StdPermutation.BinomPositive | Itertools.hpp:190-214 | there is at least one k-subset when k <= n |
| Wrap.Wrapped | Wrap.hpp:55-65 | the result lies in [min, max], is the value when already inside, and differs from it by a whole number of ranges |
| Wrap.WrapValue | Wrap.hpp:55-65 | the two loops compute Wrapped, and stop exactly when the range is positive or nothing is out of range |
| Wrap.WrappedUnique | Wrap.hpp:61-64 | a value of [min, max] congruent to the input and on the side the loops stop is the wrapped value |
| Wrap.WrapAdd | Wrap.hpp:68 | the sum wrapped into [min, max], as the macro of lines 22-26 expands it |
| Wrap.WrapSub | Wrap.hpp:69 | the difference wrapped into [min, max], as the macro of lines 22-26 expands it |
| Wrap.WrapMul | Wrap.hpp:70 | the product wrapped into [min, max], as the macro of lines 22-26 expands it |
| Wrap.WrapDiv | Wrap.hpp:71 | as the macro of lines 22-26 expands it, the truncating quotient wrapped into [min, max]; rhs must not be zero |
| Wrap.WrapShortDist | Wrap.hpp:74-79 | the larger of the two wrapped differences, within [min, max] |
| Wrap.WrapShortDiff | Wrap.hpp:82-87 | lhs - rhs up to a whole number of ranges; on [0, max] at most half the range either way, the shortest difference the comment at lines 43-47 promises; on [-max, max] exactly `wrap_sub(lhs, rhs)` |
| Wrap.SubPairSum | Wrap.hpp:84-85 | on [0, max] the two wrapped differences are both 0 or add up to the range |
| Wrap.WrapSubOdd | Wrap.hpp:84-85 | on a range symmetric about 0, swapping the operands of `wrap_sub` negates it |
| Wrap.ShortDistSymmetric | Wrap.hpp:74-79 | the short distance does not depend on the order of the operands |
| Wrap.ShortDistSymmetricRange | Wrap.hpp:74-79 | on [-max, max] the result is the absolute wrapped difference, the short distance the comment at lines 36-39 describes |
| Wrap.ShortDistLongWay | Wrap.hpp:74-87 | on [0, 360], 10 and 350 give 340 by `wrap_shortdist` (the long way round) and 20 by `wrap_shortdiff` |
| CppArith.TruncDiv | FixedPoint.hpp:71 | C++ division truncates toward zero, agreeing with floor division on non-negative operands |
| CppArith.Narrow | FixedPoint.hpp:75-80 | conversion to a signed width gives a value of that width |
| CppArith.NarrowInRange | FixedPoint.hpp:75-80 | values of the width are left alone |
| CppArith.NarrowShift | FixedPoint.hpp:75-80 | adding a multiple of 2^bits does not change the converted value |
| CppArith.DivUnique | FixedPoint.hpp:65 | Euclidean division is determined by its quotient-remainder equation |
| FixedPoint.Default | FixedPoint.hpp:9-22 | a default-constructed value has raw 0 |
| FixedPoint.Form | FixedPoint.hpp:74-80 | `form(m)` has raw value exactly m |
| FixedPoint.Neg | FixedPoint.hpp:53-54 | raw -n, narrowed to T1 |
| FixedPoint.Add | FixedPoint.hpp:56-57 | raw n + f.n, narrowed to T1 |
| FixedPoint.Sub | FixedPoint.hpp:59-60 | raw n - f.n, narrowed to T1 |
| FixedPoint.Mul | FixedPoint.hpp:62-66 | raw (n * f.n) >> dp in T2, narrowed to T1 |
| FixedPoint.Div | FixedPoint.hpp:68-72 | raw (n << dp) / f.n in T2, truncating, narrowed to T1; f.n must not be zero |
| FixedPoint.One | FixedPoint.hpp:62-72 | the raw value 2^dp standing for 1.0 fits T1 |
| FixedPoint.MulByOne | FixedPoint.hpp:62-66 | multiplying by one gives the value back |
| FixedPoint.DivByOne | FixedPoint.hpp:68-72 | dividing by one gives the value back |
| FixedPoint.AddNegIsZero | FixedPoint.hpp:53-57 | a + (-a) has raw 0; for a T1 narrower than `int` (fp4) the most negative value included, for fp16 whenever `-n` does not overflow |
| FixedPoint.SubIsAddNeg | FixedPoint.hpp:53-60 | a - b equals a + (-b): for every pair of raw values in fp4, and in fp16 whenever neither `-b` nor `a - b` overflows |
| Caesar.ShiftChar | cs50/caesar.c:40-47 | a lowercase letter c maps to ((c - 97 + k) mod 26) + 97 and stays lowercase, an uppercase one likewise from 65, anything else is unchanged |
| Caesar.Encipher | cs50/caesar.c:37-48 | the ciphertext has the plaintext's length, each character shifted on its own |
| Caesar.Program | cs50/caesar.c:6-52 | status 1 with the usage line unless exactly one argument, all digits, with value at least 1; otherwise status 0, the prompts and the ciphertext followed by a newline |
| Caesar.KeyPeriodic | cs50/caesar.c:43-45 | keys k and k + 26 give the same ciphertext |
| Caesar.DecipherRoundTrip | cs50/caesar.c:42-45 | shifting again by 26 - k mod 26 gives the plaintext back |

## Left out

- MazeGrid.Render: when a cell raises AttributeError, the source has already written the
  rows above it and the characters before it on its row. The model returns only the
  error, so that partial output is not captured.
- Logic.MakeSymbol: names are classified with ASCII-only letter and digit predicates, so
  a name with a non-ASCII letter such as "é", which Python's `str.isalnum` accepts, is
  rejected by the model.
- Logic.Parenthesize: operands are classified with the same ASCII-only predicates, so an
  operand with a non-ASCII letter, which Python's `str.isalpha` accepts, is bracketed by
  the model and not by the source.
- Logic.Junction: expressions are values in the model, so aliasing is not modelled. In
  the source an And/Or object added to another one is shared, and a later `add` on it
  also changes the enclosing expression; in the model the enclosing expression keeps
  the operands it had when it was built.
- StdPermutation.PrevPermutation: the result is a rearrangement of the input that comes
  before it in lexicographic order, but that it is the immediate predecessor is proved
  only for 0/1 selector vectors (StdPermutation.IndicatorStep), the only vectors
  Itertools.Combinations passes to it.
- File and console I/O are not modelled. This covers the `open`/`readlines` of both
  `Maze.load`, the `read_file` of tictactoe.py and inifileparser/main.py, the `open` of
  TodoFinder.py, the streams of `DataFile::Write`/`Read`, and `scanf`/`printf`/`putchar`
  in caesar.c. The model works on the lines, the content string and the text written.
  `print` in both maze scripts returns its lines instead of writing them.
- The demo code is left out. This covers the module-level run of algorithms/maze/maze.py,
  the `__main__` block of algorithms/1_pathfinding/maze.py, the top-level game of
  tictactoe.py, and the `main` functions. `Game.simulate` is kept without its message.
- A* optimality is not claimed: the cost update never improves a node already in the
  frontier, so the path `astar_search` finds need not be shortest.
  `MazeSearch.Maze.AStarSearch` promises a walk, not a shortest one.
- `TodoFinder.search` and `main` walk the file system and are left out.
- The Itertools generator machinery is left out: the coroutine promise, `fill`, and
  handle management. Each generator is the sequence it yields, computed eagerly.
- Floating point is left out. This covers the `fixed(double)` constructor, the
  `operator double` and the literal operators of FixedPoint.hpp, `SetDecimal`/`Decimal`
  of DataFile.hpp, and all of TransformedView.hpp. A negative exponent in
  `accomodations_repeat` is kept only as the reciprocal it stands for.
- fp_numbers.cpp, flops/basic.cpp, flops/with_threads.cpp, cs50/dna/dna.py,
  logic/main.py and algorithms/3_logic/main.py are not part of this model.
- `Expression.__repr__` is not modelled; only `str` is.
- Caesar.Program: a key that would overflow `atoi` or the `int` arithmetic is excluded
  by a precondition. So is a word longer than 127 characters, which would overflow the
  buffer. So is end of input before any word, where `scanf` stores nothing and the loop
  would read an uninitialised buffer. So are bytes 0x80 and above, which give
  `islower`/`isupper` a negative `char`.
- Wrap.WrapValue: works on unbounded integers, so overflow of `T` in `max - min` or in
  the loop steps is not modelled. `min > max` never terminates in the source and is
  excluded by a precondition, as is `min == max` with a value outside.
- FixedPoint.Add, FixedPoint.Sub, FixedPoint.Neg, FixedPoint.Mul and FixedPoint.Div
  state their raw result only when it fits T1. Their bodies narrow explicitly. For fp4
  (T1 = int8_t) this is what C++20 defines: the operands are promoted to `int` and the
  result is converted back modulo 2^8. For fp16 (T1 = int32_t) an overflowing `-n`,
  `n + f.n` or `n - f.n` is signed `int` overflow, which C++ leaves undefined. The model
  still narrows such a result, so nothing it says about that case holds for fp16.
  FixedPoint.AddNegIsZero and FixedPoint.SubIsAddNeg require it not to arise when T1 is
  32 bits wide.
- DataFileIO.TokenizeValue: the source stores each token list at every ';' as it
  scans. The model collects the lists and stores them after the scan, in the same order.
  The final tree is the same, because the scan never reads the tree.
- DataFiles.DataFile.String, DataFiles.DataFile.Int and DataFiles.DataFile.Bool require
  an index the caller stored. Reading past the end is undefined behaviour in the source.
- DataFileText.WriteReadRoundTrip: the round trip holds for trees whose leaves have at
  least one value and whose other nodes have only children, with names and values free
  of quotes, commas, semicolons, '=' and surrounding whitespace. A leaf with no values
  is written without a line end, which the reader cannot undo.
- DataFileIO.Read: behaviour the source leaves undefined makes the read report no
  tree. This covers popping the bottom node and then using the stack, and adding to a
  token after a ';' has cleared the list.
- TicTacToe.MinValue and TicTacToe.MaxValue require a 3x3 board. Other shapes make the
  source raise IndexError part way through, or read only part of the board.
- The maze `solution` is a list of coordinates, and `print` tests membership in it. The
  node objects behind it are sequence entries with parent positions, not linked objects.
