/** The minimax tic-tac-toe solver (algorithms/2_minimax/tictactoe.py). X is the minimising
    player (-1) and O the maximising one (+1); a board is three rows of three cells. Boards
    are values here, so the deep copy the source makes before each move is implicit. */
module TicTacToe {

  import opened PyCore

  datatype Player = X | N | O

  /** `int(player)`: X is -1, an empty cell 0 and O +1. */
  function Int(p: Player): int {
    match p
    case X => -1
    case N => 0
    case O => 1
  }

  type Board = seq<seq<Player>>

  /** Three rows of three cells, the only shape the search indexes safely. */
  predicate Square(b: Board) {
    |b| == 3 && forall y :: 0 <= y < 3 ==> |b[y]| == 3
  }

  /** A game state: the board and the player to move (`State.__init__`). */
  datatype State = State(data: Board, turn: Player)

  /** `State(raw, turn)`: an empty board and X to move unless given. */
  function NewState(raw: Option<Board>, turn: Option<Player>): (s: State)
    ensures raw.None? ==> (Square(s.data)
                           && forall y, x :: 0 <= y < 3 && 0 <= x < 3 ==> s.data[y][x] == N)
    ensures raw.Some? ==> s.data == raw.value
    ensures s.turn == (if turn.None? then X else turn.value)
  {
    var empty := [N, N, N];
    State(if raw.None? then [empty, empty, empty] else raw.value,
          if turn.None? then X else turn.value)
  }

  // ---------------------------------------------------------------------------------
  // actions

  /** Cell (x, y) lies on the board. */
  predicate OnBoard(c: (int, int)) {
    0 <= c.0 < 3 && 0 <= c.1 < 3
  }

  /** Row-major position of cell (x, y). */
  function CellIndex(c: (int, int)): int {
    3 * c.1 + c.0
  }

  /** The empty cells before cell (x, y), as (x, y) pairs, in row-major order. */
  function EmptyBefore(b: Board, y: nat, x: nat): (r: seq<(int, int)>)
    requires Square(b) && ((y < 3 && x <= 3) || (y == 3 && x == 0))
    ensures forall c :: c in r ==> OnBoard(c)
    ensures forall i :: 0 <= i < |r| ==> OnBoard(r[i])
    decreases y, x
  {
    if x == 0 then (if y == 0 then [] else EmptyBefore(b, y - 1, 3))
    else EmptyBefore(b, y, x - 1) + (if b[y][x - 1] == N then [(x - 1, y)] else [])
  }

  function EmptyCells(b: Board): (r: seq<(int, int)>)
    requires Square(b)
    ensures forall c :: c in r ==> OnBoard(c)
    ensures forall i :: 0 <= i < |r| ==> OnBoard(r[i])
  {
    EmptyBefore(b, 3, 0)
  }

  /** The cells listed are exactly the empty ones before (x, y). */
  lemma {:induction false} EmptyBeforeMembers(b: Board, y: nat, x: nat)
    requires Square(b) && ((y < 3 && x <= 3) || (y == 3 && x == 0))
    ensures forall c :: (c in EmptyBefore(b, y, x)
                         <==> 0 <= c.0 < 3 && 0 <= c.1 < 3 && CellIndex(c) < 3 * y + x && b[c.1][c.0] == N)
    decreases y, x
  {
    if x == 0 && y > 0 {
      EmptyBeforeMembers(b, y - 1, 3);
    } else if x > 0 {
      EmptyBeforeMembers(b, y, x - 1);
    }
  }

  /** The cells listed come in strictly increasing row-major order. */
  lemma {:induction false} EmptyBeforeSorted(b: Board, y: nat, x: nat)
    requires Square(b) && ((y < 3 && x <= 3) || (y == 3 && x == 0))
    ensures forall i, j :: 0 <= i < j < |EmptyBefore(b, y, x)| ==>
      CellIndex(EmptyBefore(b, y, x)[i]) < CellIndex(EmptyBefore(b, y, x)[j])
    decreases y, x
  {
    if x == 0 && y > 0 {
      EmptyBeforeSorted(b, y - 1, 3);
    } else if x > 0 {
      EmptyBeforeSorted(b, y, x - 1);
      EmptyBeforeMembers(b, y, x - 1);
      var init := EmptyBefore(b, y, x - 1);
      var last := if b[y][x - 1] == N then [(x - 1, y)] else [];
      assert EmptyBefore(b, y, x) == init + last;
      forall i, j | 0 <= i < j < |init + last|
        ensures CellIndex((init + last)[i]) < CellIndex((init + last)[j])
      {
        assert (init + last)[i] == init[i] && init[i] in init;
        if j < |init| {
          assert (init + last)[j] == init[j];
        }
      }
    }
  }

  /** `actions` lists exactly the empty cells, as (x, y), in row-major order. */
  lemma EmptyCellsSpec(b: Board)
    requires Square(b)
    ensures forall c :: c in EmptyCells(b) <==> 0 <= c.0 < 3 && 0 <= c.1 < 3 && b[c.1][c.0] == N
    ensures forall i, j :: 0 <= i < j < |EmptyCells(b)| ==>
      CellIndex(EmptyCells(b)[i]) < CellIndex(EmptyCells(b)[j])
  {
    EmptyBeforeMembers(b, 3, 0);
    EmptyBeforeSorted(b, 3, 0);
  }

  /** `State.actions`: the nested loops over rows and columns. */
  method Actions(b: Board) returns (res: seq<(int, int)>)
    requires Square(b)
    ensures res == EmptyCells(b)
  {
    res := [];
    var y := 0;
    while y < 3
      invariant 0 <= y <= 3
      invariant res == EmptyBefore(b, y, 0)
    {
      var x := 0;
      while x < 3
        invariant 0 <= x <= 3
        invariant res == EmptyBefore(b, y, x)
      {
        if b[y][x] == N {
          res := res + [(x, y)];
        }
        x := x + 1;
      }
      y := y + 1;
    }
  }

  /** The number of empty cells. */
  function Empties(b: Board): nat
    requires Square(b)
  {
    |EmptyCells(b)|
  }

  // ---------------------------------------------------------------------------------
  // terminal

  /** The eight lines in the order `terminal` inspects them: row i and column i for
      i = 0, 1, 2 (line 2i and 2i + 1), then the main and the anti-diagonal. */
  function Line(b: Board, l: nat): (Player, Player, Player)
    requires Square(b) && l < 8
  {
    if l < 6 && l % 2 == 0 then (b[l / 2][0], b[l / 2][1], b[l / 2][2])
    else if l < 6 then (b[0][l / 2], b[1][l / 2], b[2][l / 2])
    else if l == 6 then (b[0][0], b[1][1], b[2][2])
    else (b[0][2], b[1][1], b[2][0])
  }

  /** The sum of a line, as `terminal` computes it. */
  function LineSum(b: Board, l: nat): int
    requires Square(b) && l < 8
  {
    var (p, q, r) := Line(b, l);
    Int(p) + Int(q) + Int(r)
  }

  /** Line l is held by player p throughout. */
  predicate Complete(b: Board, l: nat, p: Player)
    requires Square(b) && l < 8
  {
    Line(b, l) == (p, p, p)
  }

  /** The sums tell winners apart: -3 only for three X, +3 only for three O. */
  lemma ThreeInARow(b: Board, l: nat)
    requires Square(b) && l < 8
    ensures LineSum(b, l) == -3 <==> Complete(b, l, X)
    ensures LineSum(b, l) == 3 <==> Complete(b, l, O)
  {
  }

  /** The checks of `terminal` on a full board from pair g of lines on: X if either line
      of the pair sums to -3, else O if either sums to +3, else the next pair; a tie after
      the diagonals. */
  function Decide(b: Board, g: nat): Player
    requires Square(b) && g < 4
    decreases 4 - g
  {
    var h := LineSum(b, 2 * g);
    var v := LineSum(b, 2 * g + 1);
    if h == -3 || v == -3 then X
    else if h == 3 || v == 3 then O
    else if g == 3 then N
    else Decide(b, g + 1)
  }

  /** `State.terminal`: nothing while a row still holds an empty cell, otherwise the first
      decided pair of lines. */
  function Terminal(b: Board): (r: Option<Player>)
    requires Square(b)
    ensures r.None? <==> N in b[0] || N in b[1] || N in b[2]
  {
    TerminalEmpty(b);
    if EmptyCells(b) != [] then None else Some(Decide(b, 0))
  }

  /** The list of empty cells is empty exactly when no row holds N. */
  lemma TerminalEmpty(b: Board)
    requires Square(b)
    ensures EmptyCells(b) != [] <==> N in b[0] || N in b[1] || N in b[2]
  {
    EmptyBeforeMembers(b, 3, 0);
    if EmptyCells(b) != [] {
      var c := EmptyCells(b)[0];
      assert c in EmptyCells(b);
      assert b[c.1][c.0] in b[c.1];
    } else {
      forall y, x | 0 <= y < 3 && 0 <= x < 3
        ensures b[y][x] != N
      {
        assert (x, y) !in EmptyCells(b);
      }
      assert N !in b[0] && N !in b[1] && N !in b[2];
    }
  }

  /** `terminal` gives nothing exactly when some cell is still empty, even when a line is
      already complete. */
  lemma TerminalNone(b: Board)
    requires Square(b)
    ensures Terminal(b).None? <==> exists c: (int, int) :: 0 <= c.0 < 3 && 0 <= c.1 < 3 && b[c.1][c.0] == N
  {
    EmptyCellsSpec(b);
    if EmptyCells(b) != [] {
      assert EmptyCells(b)[0] in EmptyCells(b);
    }
  }

  /** Some X line from pair g on lies in a pair no later than every O line's. */
  predicate XFirst(b: Board, g: nat)
    requires Square(b)
  {
    exists l :: 2 * g <= l < 8 && Complete(b, l, X)
      && (forall m :: 2 * g <= m < 8 && m / 2 < l / 2 ==> !Complete(b, m, O))
  }

  /** Some O line from pair g on lies in a pair earlier than every X line's. */
  predicate OFirst(b: Board, g: nat)
    requires Square(b)
  {
    exists l :: 2 * g <= l < 8 && Complete(b, l, O)
      && (forall m :: 2 * g <= m < 8 && m / 2 <= l / 2 ==> !Complete(b, m, X))
  }

  /** No line from pair g on is complete. */
  predicate NoLine(b: Board, g: nat)
    requires Square(b)
  {
    forall l :: 2 * g <= l < 8 ==> !Complete(b, l, X) && !Complete(b, l, O)
  }

  /** What `Decide` picks from pair g on, for each of its three answers. */
  lemma {:induction false} DecideSpec(b: Board, g: nat)
    requires Square(b) && g < 4
    ensures Decide(b, g) == X <==> XFirst(b, g)
    ensures Decide(b, g) == O <==> OFirst(b, g)
    ensures Decide(b, g) == N <==> NoLine(b, g)
    decreases 4 - g
  {
    ThreeInARow(b, 2 * g);
    ThreeInARow(b, 2 * g + 1);
    if g < 3 {
      DecideSpec(b, g + 1);
    }
    DecideStep(b, g);
  }

  /** How the three predicates for pair g follow from the pair's own lines and those for
      pair g + 1. */
  lemma DecideStep(b: Board, g: nat)
    requires Square(b) && g < 4
    ensures Complete(b, 2 * g, X) || Complete(b, 2 * g + 1, X) ==> XFirst(b, g)
    ensures !Complete(b, 2 * g, X) && !Complete(b, 2 * g + 1, X) ==>
      (OFirst(b, g) <==> (Complete(b, 2 * g, O) || Complete(b, 2 * g + 1, O)
                          || (g < 3 && OFirst(b, g + 1))))
    ensures (!Complete(b, 2 * g, X) && !Complete(b, 2 * g + 1, X)
             && !Complete(b, 2 * g, O) && !Complete(b, 2 * g + 1, O)) ==>
      (XFirst(b, g) <==> g < 3 && XFirst(b, g + 1))
      && (NoLine(b, g) <==> g == 3 || NoLine(b, g + 1))
    ensures Complete(b, 2 * g, X) || Complete(b, 2 * g + 1, X) ==> !OFirst(b, g) && !NoLine(b, g)
    ensures Complete(b, 2 * g, O) || Complete(b, 2 * g + 1, O) ==> !NoLine(b, g)
    ensures (!Complete(b, 2 * g, X) && !Complete(b, 2 * g + 1, X)
             && (Complete(b, 2 * g, O) || Complete(b, 2 * g + 1, O))) ==> !XFirst(b, g)
  {
    forall l | 2 * g <= l < 8
      ensures l / 2 == g <==> l == 2 * g || l == 2 * g + 1
      ensures l / 2 > g <==> 2 * (g + 1) <= l
    {
    }
  }

  /** On a full board `terminal` names the winner by the order of its checks: rows and
      columns pair by pair, then the diagonals, X before O within a pair. */
  lemma TerminalSpec(b: Board)
    requires Square(b) && Terminal(b).Some?
    ensures Terminal(b) == Some(X) <==> XFirst(b, 0)
    ensures Terminal(b) == Some(O) <==> OFirst(b, 0)
    ensures Terminal(b) == Some(N) <==> NoLine(b, 0)
  {
    DecideSpec(b, 0);
  }

  // ---------------------------------------------------------------------------------
  // min_value and max_value

  /** The board after player p moves to cell c = (x, y). */
  function Place(b: Board, c: (int, int), p: Player): (r: Board)
    requires Square(b) && 0 <= c.0 < 3 && 0 <= c.1 < 3
    ensures Square(r)
  {
    b[c.1 := b[c.1][c.0 := p]]
  }

  /** A move to an empty cell fills exactly one: the search always gets closer to a full
      board. */
  lemma PlaceEmpties(b: Board, c: (int, int), p: Player)
    requires Square(b) && c in EmptyCells(b) && p != N
    ensures 0 <= c.0 < 3 && 0 <= c.1 < 3
    ensures Empties(Place(b, c, p)) == Empties(b) - 1
  {
    EmptyCellsSpec(b);
    var r := Place(b, c, p);
    EmptyCellsSpec(r);
    PlaceCell(b, c, p);
    assert forall e :: e in EmptyCells(r) <==> e in EmptyCells(b) && e != c;
    CountRemoved(EmptyCells(b), EmptyCells(r), c);
  }

  /** A move changes its own cell and no other. */
  lemma PlaceCell(b: Board, c: (int, int), p: Player)
    requires Square(b) && 0 <= c.0 < 3 && 0 <= c.1 < 3
    ensures forall e: (int, int) :: 0 <= e.0 < 3 && 0 <= e.1 < 3 ==>
      Place(b, c, p)[e.1][e.0] == if e == c then p else b[e.1][e.0]
  {
  }

  /** Removing one element from a list without repetitions shortens it by one. */
  lemma {:induction false} CountRemoved(s: seq<(int, int)>, t: seq<(int, int)>, c: (int, int))
    requires forall i, j :: 0 <= i < j < |s| ==> CellIndex(s[i]) < CellIndex(s[j])
    requires forall i, j :: 0 <= i < j < |t| ==> CellIndex(t[i]) < CellIndex(t[j])
    requires c in s
    requires forall e :: e in t <==> e in s && e != c
    ensures |t| == |s| - 1
  {
    var ss := set e | e in s;
    var ts := set e | e in t;
    assert ts == ss - {c};
    DistinctCard(s);
    DistinctCard(t);
  }

  /** A strictly ordered list has as many elements as its set. */
  lemma {:induction false} DistinctCard(s: seq<(int, int)>)
    requires forall i, j :: 0 <= i < j < |s| ==> CellIndex(s[i]) < CellIndex(s[j])
    ensures |set e | e in s| == |s|
    decreases |s|
  {
    if s != [] {
      OrderedSplit(s);
      DistinctCard(s[1..]);
    }
  }

  /** The tail of a strictly ordered list is strictly ordered, and its set lacks the head. */
  lemma OrderedSplit(s: seq<(int, int)>)
    requires s != []
    requires forall i, j :: 0 <= i < j < |s| ==> CellIndex(s[i]) < CellIndex(s[j])
    ensures forall i, j :: 0 <= i < j < |s[1..]| ==> CellIndex(s[1..][i]) < CellIndex(s[1..][j])
    ensures (set e | e in s) == (set e | e in s[1..]) + {s[0]}
    ensures s[0] !in s[1..]
  {
    var rest := s[1..];
    forall i, j | 0 <= i < j < |rest|
      ensures CellIndex(rest[i]) < CellIndex(rest[j])
    {
      assert rest[i] == s[i + 1] && rest[j] == s[j + 1];
    }
    forall i | 0 <= i < |rest|
      ensures rest[i] != s[0]
    {
      assert rest[i] == s[i + 1];
    }
  }

  /** The loop of `min_value` over a list of move values: the running minimum, from `acc`. */
  function MinOf(vals: seq<int>, acc: int): (v: int)
    ensures v <= acc
    ensures forall k :: 0 <= k < |vals| ==> v <= vals[k]
    ensures v == acc || exists k :: 0 <= k < |vals| && v == vals[k]
    decreases |vals|
  {
    if vals == [] then acc
    else
      var v := MinOf(vals[1..], if acc < vals[0] then acc else vals[0]);
      assert forall k :: 1 <= k < |vals| ==> vals[k] == vals[1..][k - 1];
      v
  }

  /** The loop of `max_value` over a list of move values: the running maximum, from `acc`. */
  function MaxOf(vals: seq<int>, acc: int): (v: int)
    ensures acc <= v
    ensures forall k :: 0 <= k < |vals| ==> vals[k] <= v
    ensures v == acc || exists k :: 0 <= k < |vals| && v == vals[k]
    decreases |vals|
  {
    if vals == [] then acc
    else
      var v := MaxOf(vals[1..], if acc > vals[0] then acc else vals[0]);
      assert forall k :: 1 <= k < |vals| ==> vals[k] == vals[1..][k - 1];
      v
  }

  /** The value X can force: the terminal value, else the least, over all moves, of
      what O can force after X moves there (starting from the highest value, 1). */
  function MinScore(b: Board): (v: int)
    requires Square(b)
    ensures -1 <= v <= 1
    decreases Empties(b), 1
  {
    match Terminal(b)
    case Some(t) => Int(t)
    case None => MinOf(XReplies(b), 1)
  }

  /** The value O can force: the terminal value, else the greatest, over all moves, of
      what X can force after O moves there (starting from the lowest value, -1). */
  function MaxScore(b: Board): (v: int)
    requires Square(b)
    ensures -1 <= v <= 1
    decreases Empties(b), 1
  {
    match Terminal(b)
    case Some(t) => Int(t)
    case None => MaxOf(OReplies(b), -1)
  }

  /** The values of the boards X's moves lead to, move by move in the order of `actions`. */
  function XReplies(b: Board): (r: seq<int>)
    requires Square(b)
    ensures |r| == Empties(b)
    ensures forall k :: 0 <= k < |r| ==> -1 <= r[k] <= 1
    decreases Empties(b), 0
  {
    var cells := EmptyCells(b);
    seq(|cells|, k requires 0 <= k < |cells| =>
      PlaceEmpties(b, cells[k], X); MaxScore(Place(b, cells[k], X)))
  }

  /** The values of the boards O's moves lead to. */
  function OReplies(b: Board): (r: seq<int>)
    requires Square(b)
    ensures |r| == Empties(b)
    ensures forall k :: 0 <= k < |r| ==> -1 <= r[k] <= 1
    decreases Empties(b), 0
  {
    var cells := EmptyCells(b);
    seq(|cells|, k requires 0 <= k < |cells| =>
      PlaceEmpties(b, cells[k], O); MinScore(Place(b, cells[k], O)))
  }
  /** One turn of the loop of `min_value`: the fold goes on from the updated bound. */
  lemma MinOfStep(vals: seq<int>, i: nat, acc: int)
    requires i < |vals|
    ensures MinOf(vals[i..], acc) == MinOf(vals[i + 1..], if acc < vals[i] then acc else vals[i])
  {
    assert vals[i..][1..] == vals[i + 1..];
  }

  /** One turn of the loop of `max_value`. */
  lemma MaxOfStep(vals: seq<int>, i: nat, acc: int)
    requires i < |vals|
    ensures MaxOf(vals[i..], acc) == MaxOf(vals[i + 1..], if acc > vals[i] then acc else vals[i])
  {
    assert vals[i..][1..] == vals[i + 1..];
  }

  /** `State.min_value`. */
  method MinValue(s: State) returns (minima: int)
    requires Square(s.data)
    ensures minima == MinScore(s.data)
    decreases Empties(s.data), 2
  {
    var term := Terminal(s.data);
    if term.Some? {
      return Int(term.value);
    }
    minima := 1;
    var acts := Actions(s.data);
    ghost var vals := XReplies(s.data);
    var i := 0;
    while i < |acts|
      invariant 0 <= i <= |acts|
      invariant MinOf(vals[i..], minima) == MinScore(s.data)
    {
      var (x, y) := acts[i];
      assert acts[i] in EmptyCells(s.data);
      PlaceEmpties(s.data, (x, y), X);
      var curState := s.data;
      curState := curState[y := curState[y][x := X]];
      var newState := State(curState, O);
      var m := MaxValue(newState);
      MinOfStep(vals, i, minima);
      minima := if minima < m then minima else m;
      i := i + 1;
    }
  }

  /** `State.max_value`. */
  method MaxValue(s: State) returns (maxima: int)
    requires Square(s.data)
    ensures maxima == MaxScore(s.data)
    decreases Empties(s.data), 2
  {
    var term := Terminal(s.data);
    if term.Some? {
      return Int(term.value);
    }
    maxima := -1;
    var acts := Actions(s.data);
    ghost var vals := OReplies(s.data);
    var i := 0;
    while i < |acts|
      invariant 0 <= i <= |acts|
      invariant MaxOf(vals[i..], maxima) == MaxScore(s.data)
    {
      var (x, y) := acts[i];
      assert acts[i] in EmptyCells(s.data);
      PlaceEmpties(s.data, (x, y), O);
      var curState := s.data;
      curState := curState[y := curState[y][x := O]];
      var newState := State(curState, X);
      var m := MinValue(newState);
      MaxOfStep(vals, i, maxima);
      maxima := if maxima > m then maxima else m;
      i := i + 1;
    }
  }

  /** The value of one move of X bounds `min_value`. */
  lemma MinScoreBound(b: Board, c: (int, int))
    requires Square(b) && Terminal(b).None? && c in EmptyCells(b)
    ensures MinScore(b) <= MaxScore(Place(b, c, X))
  {
    var acts := EmptyCells(b);
    var vals := XReplies(b);
    assert MinScore(b) == MinOf(vals, 1);
    var j :| 0 <= j < |acts| && acts[j] == c;
    assert vals[j] == MaxScore(Place(b, c, X));
  }

  /** Some move of X attains `min_value`; there is one, as the game is not over. */
  lemma MinScoreAttained(b: Board) returns (c: (int, int))
    requires Square(b) && Terminal(b).None?
    ensures c in EmptyCells(b) && MinScore(b) == MaxScore(Place(b, c, X))
  {
    var acts := EmptyCells(b);
    var vals := XReplies(b);
    TerminalNone(b);
    var v := MinOf(vals, 1);
    assert MinScore(b) == v;
    var j: int :| 0 <= j < |vals| && (v == 1 ==> j == 0) && (v != 1 ==> v == vals[j]);
    c := acts[j];
    assert vals[j] == MaxScore(Place(b, c, X));
  }

  /** Before the game is over, `min_value` is the least value O can force over all of X's
      moves: no move does better, and some move achieves it. */
  lemma MinScoreIsMinimum(b: Board)
    requires Square(b) && Terminal(b).None?
    ensures forall c :: c in EmptyCells(b) ==> MinScore(b) <= MaxScore(Place(b, c, X))
    ensures exists c :: c in EmptyCells(b) && MinScore(b) == MaxScore(Place(b, c, X))
  {
    forall c | c in EmptyCells(b)
      ensures MinScore(b) <= MaxScore(Place(b, c, X))
    {
      MinScoreBound(b, c);
    }
    var c := MinScoreAttained(b);
  }

  /** The value of one move of O bounds `max_value`. */
  lemma MaxScoreBound(b: Board, c: (int, int))
    requires Square(b) && Terminal(b).None? && c in EmptyCells(b)
    ensures MinScore(Place(b, c, O)) <= MaxScore(b)
  {
    var acts := EmptyCells(b);
    var vals := OReplies(b);
    assert MaxScore(b) == MaxOf(vals, -1);
    var j :| 0 <= j < |acts| && acts[j] == c;
    assert vals[j] == MinScore(Place(b, c, O));
  }

  /** Some move of O attains `max_value`; there is one, as the game is not over. */
  lemma MaxScoreAttained(b: Board) returns (c: (int, int))
    requires Square(b) && Terminal(b).None?
    ensures c in EmptyCells(b) && MaxScore(b) == MinScore(Place(b, c, O))
  {
    var acts := EmptyCells(b);
    var vals := OReplies(b);
    TerminalNone(b);
    var v := MaxOf(vals, -1);
    assert MaxScore(b) == v;
    var j: int :| 0 <= j < |vals| && (v == -1 ==> j == 0) && (v != -1 ==> v == vals[j]);
    c := acts[j];
    assert vals[j] == MinScore(Place(b, c, O));
  }

  /** Before the game is over, `max_value` is the greatest value X can be held to over all
      of O's moves: no move does better for O, and some move achieves it. */
  lemma MaxScoreIsMaximum(b: Board)
    requires Square(b) && Terminal(b).None?
    ensures forall c :: c in EmptyCells(b) ==> MinScore(Place(b, c, O)) <= MaxScore(b)
    ensures exists c :: c in EmptyCells(b) && MaxScore(b) == MinScore(Place(b, c, O))
  {
    forall c | c in EmptyCells(b)
      ensures MinScore(Place(b, c, O)) <= MaxScore(b)
    {
      MaxScoreBound(b, c);
    }
    var c := MaxScoreAttained(b);
  }

  // ---------------------------------------------------------------------------------
  // the game and reading a board from text

  /** `Game.simulate` without its message: the outcome of perfect play from the state, X
      moving with `min_value` and O with `max_value`. */
  method Simulate(s: State) returns (winner: Player)
    requires Square(s.data)
    ensures Int(winner) == (if s.turn == X then MinScore(s.data) else MaxScore(s.data))
  {
    var v: int;
    if s.turn == X {
      v := MinValue(s);
    } else {
      v := MaxValue(s);
    }
    winner := if v == -1 then X else if v == 0 then N else O;
  }

  /** The player a character of the board file stands for; other characters stand for
      none and are skipped. */
  function Cell(ch: char): Option<Player> {
    if ch == 'x' then Some(X)
    else if ch == 'o' then Some(O)
    else if ch == ' ' then Some(N)
    else None
  }

  /** The cells read from the first n characters of a line, skipping unknown ones. */
  function RowOf(line: string, n: nat): (r: seq<Player>)
    requires n <= |line|
    ensures |r| <= n
  {
    if n == 0 then []
    else RowOf(line, n - 1) + (match Cell(line[n - 1]) case Some(p) => [p] case None => [])
  }

  /** What `construct_raw_state` returns: the first three lines read three characters
      each, or IndexError when a line or a character is missing. */
  function RawBoard(raw: seq<string>): (r: Outcome<Board>)
    ensures r.Raise? ==> r.error == IndexError
    ensures r.Return? ==> |r.value| == 3 && forall y :: 0 <= y < 3 ==> |r.value[y]| <= 3
  {
    if |raw| < 3 || |raw[0]| < 3 || |raw[1]| < 3 || |raw[2]| < 3 then Raise(IndexError)
    else Return([RowOf(raw[0], 3), RowOf(raw[1], 3), RowOf(raw[2], 3)])
  }

  /** `construct_raw_state`: the nested loops appending one cell per known character. */
  method ConstructRawState(raw: seq<string>) returns (r: Outcome<Board>)
    ensures r == RawBoard(raw)
  {
    var res: seq<seq<Player>> := [];
    var y := 0;
    while y < 3
      invariant 0 <= y <= 3 && |res| == y
      invariant y <= |raw| && forall k :: 0 <= k < y ==> 3 <= |raw[k]| && res[k] == RowOf(raw[k], 3)
    {
      if y >= |raw| {
        return Raise(IndexError);
      }
      var row: seq<Player> := [];
      var x := 0;
      while x < 3
        invariant 0 <= x <= 3 && x <= |raw[y]| && row == RowOf(raw[y], x)
      {
        if x >= |raw[y]| {
          return Raise(IndexError);
        }
        match Cell(raw[y][x]) {
          case Some(p) => row := row + [p];
          case None =>
        }
        x := x + 1;
      }
      res := res + [row];
      y := y + 1;
    }
    assert res == [res[0], res[1], res[2]];
    return Return(res);
  }

  /** A line whose first three characters are all known gives a full row, cell by cell. */
  lemma RowOfKnown(line: string)
    requires 3 <= |line| && forall x :: 0 <= x < 3 ==> Cell(line[x]).Some?
    ensures |RowOf(line, 3)| == 3
    ensures forall x :: 0 <= x < 3 ==> RowOf(line, 3)[x] == Cell(line[x]).value
  {
    assert RowOf(line, 1) == [Cell(line[0]).value];
    assert RowOf(line, 2) == [Cell(line[0]).value, Cell(line[1]).value];
  }

  /** Reading a board fails exactly when one of the first three lines or one of their
      first three characters is missing; when every such character is 'x', 'o' or ' ',
      the board is square and each cell is the player its character stands for. */
  lemma RawBoardSpec(raw: seq<string>)
    ensures RawBoard(raw).Raise? <==> |raw| < 3 || exists y :: 0 <= y < 3 && |raw[y]| < 3
    ensures RawBoard(raw).Return? && (forall y, x :: 0 <= y < 3 && 0 <= x < 3 ==> Cell(raw[y][x]).Some?)
      ==> (Square(RawBoard(raw).value)
           && forall y, x :: 0 <= y < 3 && 0 <= x < 3 ==> RawBoard(raw).value[y][x] == Cell(raw[y][x]).value)
  {
    if RawBoard(raw).Return? && (forall y, x :: 0 <= y < 3 && 0 <= x < 3 ==> Cell(raw[y][x]).Some?) {
      RowOfKnown(raw[0]);
      RowOfKnown(raw[1]);
      RowOfKnown(raw[2]);
      var b := RawBoard(raw).value;
      forall y, x | 0 <= y < 3 && 0 <= x < 3
        ensures b[y][x] == Cell(raw[y][x]).value
      {
        assert b[y] == RowOf(raw[y], 3);
      }
    }
  }

  /** A line with a character other than 'x', 'o' or ' ' among its first three gives a
      short row, so the board read is not square. */
  lemma RawBoardShort(raw: seq<string>, y: nat, x: nat)
    requires RawBoard(raw).Return? && y < 3 && x < 3 && Cell(raw[y][x]).None?
    ensures !Square(RawBoard(raw).value)
  {
    RowOfShort(raw[y], x, 3);
    assert RawBoard(raw).value[y] == RowOf(raw[y], 3);
  }

  /** One skipped character among the first n leaves fewer than n cells. */
  lemma {:induction false} RowOfShort(line: string, x: nat, n: nat)
    requires x < n <= |line| && Cell(line[x]).None?
    ensures |RowOf(line, n)| < n
  {
    if x < n - 1 {
      RowOfShort(line, x, n - 1);
    }
  }
}
