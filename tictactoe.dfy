/**
 * The board rules of tictactoe.py: a 3 x 3 board of cells that are empty or
 * hold a mark, whose turn it is, the legal moves, the board a move leads to,
 * and the end-of-game tests.
 */
module TicTacToe {
  import opened Wrappers

  datatype Mark = X | O

  /** A cell is EMPTY (None) or holds a mark. */
  type Cell = Option<Mark>

  predicate IsBoard(b: seq<seq<Cell>>) {
    |b| == 3 && forall i :: 0 <= i < 3 ==> |b[i]| == 3
  }

  /** A list of three rows of three cells. */
  type Board = b: seq<seq<Cell>> | IsBoard(b)
    witness [[None, None, None], [None, None, None], [None, None, None]]

  /** A move (row, column). */
  type Action = (int, int)

  /** Every cell of the starting board is empty. */
  function InitialState(): (b: Board)
    ensures forall i, j :: 0 <= i < 3 && 0 <= j < 3 ==> b[i][j] == None
  {
    [[None, None, None], [None, None, None], [None, None, None]]
  }

  // ----- counting marks -----

  /** The cell at row-major position k. */
  function At(k: nat): (a: (int, int))
    requires k < 9
    ensures 0 <= a.0 < 3 && 0 <= a.1 < 3 && 3 * a.0 + a.1 == k
  {
    if k < 3 then (0, k) else if k < 6 then (1, k - 3) else (2, k - 6)
  }

  /** The number of marks m among the first k cells in row-major order. */
  function CountUpTo(b: Board, m: Mark, k: nat): nat
    requires k <= 9
  {
    if k == 0 then 0
    else CountUpTo(b, m, k - 1) + (if b[At(k - 1).0][At(k - 1).1] == Some(m) then 1 else 0)
  }

  /** The number of marks m on the board. */
  function Count(b: Board, m: Mark): nat {
    CountUpTo(b, m, 9)
  }

  /** X moves first, so X is to move exactly when both marks are equally many. */
  function ToMove(b: Board): Mark {
    if Count(b, X) == Count(b, O) then X else O
  }

  /** X has made as many moves as O, or one more. */
  predicate Balanced(b: Board) {
    Count(b, X) == Count(b, O) || Count(b, X) == Count(b, O) + 1
  }

  function Filled(b: Board): nat {
    Count(b, X) + Count(b, O)
  }

  /** Row i, column j is the cell at row-major position 3 * i + j. */
  lemma Position(i: int, j: int)
    requires 0 <= i < 3 && 0 <= j < 3
    ensures At(3 * i + j) == (i, j)
  {
  }

  /** Cell (i, j) is the next one in row-major order after the first 3 * i + j. */
  lemma CountStep(b: Board, i: int, j: int)
    requires 0 <= i < 3 && 0 <= j < 3
    ensures forall m :: CountUpTo(b, m, 3 * i + j + 1) == CountUpTo(b, m, 3 * i + j) + if b[i][j] == Some(m) then 1 else 0
  {
    Position(i, j);
  }

  /** Counts the marks with two loop counters, as player() does. */
  method Player(b: Board) returns (p: Mark)
    ensures p == X <==> Count(b, X) == Count(b, O)
    ensures p == ToMove(b)
  {
    var sumX, sumO := 0, 0;
    var i := 0;
    while i < 3
      invariant 0 <= i <= 3
      invariant sumX == CountUpTo(b, X, 3 * i) && sumO == CountUpTo(b, O, 3 * i)
    {
      var j := 0;
      while j < 3
        invariant 0 <= j <= 3
        invariant sumX == CountUpTo(b, X, 3 * i + j) && sumO == CountUpTo(b, O, 3 * i + j)
      {
        CountStep(b, i, j);
        if b[i][j] == Some(X) {
          sumX := sumX + 1;
        }
        if b[i][j] == Some(O) {
          sumO := sumO + 1;
        }
        j := j + 1;
      }
      i := i + 1;
    }
    if sumX == sumO {
      return X;
    }
    return O;
  }

  // ----- legal moves -----

  /** The move goes to an empty cell of the board. */
  predicate Legal(b: Board, a: Action) {
    0 <= a.0 < 3 && 0 <= a.1 < 3 && b[a.0][a.1] == None
  }

  /** The row-major position of a cell. */
  function Index(a: Action): int {
    3 * a.0 + a.1
  }

  /** The empty cells among the first k in row-major order, in that order. */
  function EmptyCells(b: Board, k: nat): seq<Action>
    requires k <= 9
  {
    if k == 0 then []
    else EmptyCells(b, k - 1) + (if b[At(k - 1).0][At(k - 1).1] == None then [At(k - 1)] else [])
  }

  function ActionsOf(b: Board): seq<Action> {
    EmptyCells(b, 9)
  }

  lemma {:induction false} EmptyCellsSpec(b: Board, k: nat)
    requires k <= 9
    ensures forall a :: a in EmptyCells(b, k) <==> Legal(b, a) && Index(a) < k
    ensures forall p, q :: 0 <= p < q < |EmptyCells(b, k)| ==> Index(EmptyCells(b, k)[p]) < Index(EmptyCells(b, k)[q])
  {
    if k > 0 {
      EmptyCellsSpec(b, k - 1);
      var c := At(k - 1);
      assert Index(c) == k - 1;
      forall a | Legal(b, a) && Index(a) == k - 1
        ensures a == c
      {
      }
    }
  }

  /** The moves are exactly the empty cells, each once, in row-major order. */
  lemma ActionsOfSpec(b: Board)
    ensures forall a :: a in ActionsOf(b) <==> Legal(b, a)
    ensures forall p, q :: 0 <= p < q < |ActionsOf(b)| ==> Index(ActionsOf(b)[p]) < Index(ActionsOf(b)[q])
    ensures forall p, q :: 0 <= p < q < |ActionsOf(b)| ==> ActionsOf(b)[p] != ActionsOf(b)[q]
  {
    EmptyCellsSpec(b, 9);
  }

  /** Cell (i, j) is the next one in row-major order after the first 3 * i + j. */
  lemma EmptyCellsStep(b: Board, i: int, j: int)
    requires 0 <= i < 3 && 0 <= j < 3
    ensures EmptyCells(b, 3 * i + j + 1) == EmptyCells(b, 3 * i + j) + if b[i][j] == None then [(i, j)] else []
  {
    Position(i, j);
  }

  /** Scans the rows for empty cells, as actions() does. */
  method Actions(b: Board) returns (acts: seq<Action>)
    ensures acts == ActionsOf(b)
    ensures forall a :: a in acts <==> Legal(b, a)
  {
    acts := [];
    var i := 0;
    while i < 3
      invariant 0 <= i <= 3
      invariant acts == EmptyCells(b, 3 * i)
    {
      var j := 0;
      while j < 3
        invariant 0 <= j <= 3
        invariant acts == EmptyCells(b, 3 * i + j)
      {
        EmptyCellsStep(b, i, j);
        if b[i][j] == None {
          acts := acts + [(i, j)];
        }
        j := j + 1;
      }
      i := i + 1;
    }
    ActionsOfSpec(b);
  }

  // ----- making a move -----

  /** An action's components are list indices: -3 .. 2 address a row or a cell, as in Python. */
  predicate InBounds(a: Action) {
    -3 <= a.0 < 3 && -3 <= a.1 < 3
  }

  /** Python's negative list indices count from the end. */
  function Wrap(i: int): (k: int)
    requires -3 <= i < 3
    ensures 0 <= k < 3 && (k == i || k == i + 3)
  {
    if i < 0 then i + 3 else i
  }

  /**
   * The board after the move a: None when the addressed cell is taken;
   * otherwise the cell (a.0, a.1) holds the mark to move.  The copy only
   * matches non-negative indices, so an action with a negative component
   * returns an unchanged copy.
   */
  function Apply(b: Board, a: Action): Option<Board>
    requires InBounds(a)
  {
    if b[Wrap(a.0)][Wrap(a.1)] != None then None
    else if 0 <= a.0 && 0 <= a.1 then Some(b[a.0 := b[a.0][a.1 := Some(ToMove(b))]])
    else Some(b)
  }

  /** What the copy loop of result() writes at (i, j). */
  function Copied(b: Board, a: Action, i: int, j: int): Cell
    requires 0 <= i < 3 && 0 <= j < 3
  {
    if i == a.0 && j == a.1 then Some(ToMove(b)) else b[i][j]
  }

  /**
   * A move to a free cell with non-negative indices puts the mark to move
   * in that cell and leaves every other cell as it was.
   */
  lemma ApplyCells(b: Board, a: Action)
    requires InBounds(a) && b[Wrap(a.0)][Wrap(a.1)] == None && 0 <= a.0 && 0 <= a.1
    ensures Apply(b, a).Some?
    ensures forall i, j :: 0 <= i < 3 && 0 <= j < 3 ==>
      Apply(b, a).value[i][j] == if i == a.0 && j == a.1 then Some(ToMove(b)) else b[i][j]
  {
  }

  /** Copies the board row by row, putting the mark to move at the action's cell, as result() does. */
  method Result(b: Board, a: Action) returns (r: Option<Board>)
    requires InBounds(a)
    ensures r.Some? <==> b[Wrap(a.0)][Wrap(a.1)] == None
    ensures r == Apply(b, a)
  {
    if b[Wrap(a.0)][Wrap(a.1)] != None {
      return None;
    }
    var newBoard: seq<seq<Cell>> := [];
    var i := 0;
    while i < 3
      invariant 0 <= i <= 3 && |newBoard| == i
      invariant forall i' :: 0 <= i' < i ==> |newBoard[i']| == 3
      invariant forall i', j' :: 0 <= i' < i && 0 <= j' < 3 ==> newBoard[i'][j'] == Copied(b, a, i', j')
    {
      var row: seq<Cell> := [];
      var j := 0;
      while j < 3
        invariant 0 <= j <= 3 && |row| == j
        invariant forall j' :: 0 <= j' < j ==> row[j'] == Copied(b, a, i, j')
      {
        if i == a.0 && j == a.1 {
          var p := Player(b);
          row := row + [Some(p)];
        } else {
          row := row + [b[i][j]];
        }
        j := j + 1;
      }
      newBoard := newBoard + [row];
      i := i + 1;
    }
    assert IsBoard(newBoard);
    var expected := Apply(b, a).value;
    forall i' | 0 <= i' < 3
      ensures newBoard[i'] == expected[i']
    {
      assert forall j' :: 0 <= j' < 3 ==> newBoard[i'][j'] == expected[i'][j'];
    }
    assert newBoard == expected;
    r := Some(newBoard);
  }

  // ----- the end of the game -----

  /** The whole row, diagonal or column check of player_win(). */
  predicate PlayerWin(p: Mark, b: Board) {
    var row := [Some(p), Some(p), Some(p)];
    if b[0] == row || b[1] == row || b[2] == row then true
    else if b[0][0] == Some(p) && b[1][1] == Some(p) && b[2][2] == Some(p) then true
    else if b[0][2] == Some(p) && b[1][1] == Some(p) && b[2][0] == Some(p) then true
    else if b[0][0] == Some(p) && b[1][0] == Some(p) && b[2][0] == Some(p) then true
    else if b[0][1] == Some(p) && b[1][1] == Some(p) && b[2][1] == Some(p) then true
    else b[0][2] == Some(p) && b[1][2] == Some(p) && b[2][2] == Some(p)
  }

  /** The eight lines of the board: three rows, three columns, two diagonals. */
  function Line(k: nat): (l: seq<Action>)
    requires k < 8
    ensures |l| == 3 && forall c :: 0 <= c < 3 ==> 0 <= l[c].0 < 3 && 0 <= l[c].1 < 3
  {
    if k < 3 then [(k, 0), (k, 1), (k, 2)]
    else if k < 6 then [(0, k - 3), (1, k - 3), (2, k - 3)]
    else if k == 6 then [(0, 0), (1, 1), (2, 2)]
    else [(0, 2), (1, 1), (2, 0)]
  }

  /** Every cell of the k-th line holds p. */
  predicate OwnsLine(b: Board, p: Mark, k: nat)
    requires k < 8
  {
    var l := Line(k);
    b[l[0].0][l[0].1] == Some(p) && b[l[1].0][l[1].1] == Some(p) && b[l[2].0][l[2].1] == Some(p)
  }

  lemma RowIsLine(b: Board, p: Mark, i: nat)
    requires i < 3
    ensures b[i] == [Some(p), Some(p), Some(p)] <==> OwnsLine(b, p, i)
  {
    if OwnsLine(b, p, i) {
      assert b[i] == [b[i][0], b[i][1], b[i][2]];
    }
  }

  /** player_win holds exactly when p owns one of the eight lines. */
  lemma PlayerWinIffLine(p: Mark, b: Board)
    ensures PlayerWin(p, b) <==> exists k :: 0 <= k < 8 && OwnsLine(b, p, k)
  {
    RowIsLine(b, p, 0);
    RowIsLine(b, p, 1);
    RowIsLine(b, p, 2);
    if PlayerWin(p, b) {
      var k :| 0 <= k < 8 && OwnsLine(b, p, k) by {
        if OwnsLine(b, p, 0) || OwnsLine(b, p, 1) || OwnsLine(b, p, 2) {
        } else if b[0][0] == Some(p) && b[1][1] == Some(p) && b[2][2] == Some(p) {
          assert OwnsLine(b, p, 6);
        } else if b[0][2] == Some(p) && b[1][1] == Some(p) && b[2][0] == Some(p) {
          assert OwnsLine(b, p, 7);
        } else if b[0][0] == Some(p) && b[1][0] == Some(p) && b[2][0] == Some(p) {
          assert OwnsLine(b, p, 3);
        } else if b[0][1] == Some(p) && b[1][1] == Some(p) && b[2][1] == Some(p) {
          assert OwnsLine(b, p, 4);
        } else {
          assert OwnsLine(b, p, 5);
        }
      }
    }
  }

  /** X is checked before O. */
  function Winner(b: Board): Option<Mark> {
    if PlayerWin(X, b) then Some(X)
    else if PlayerWin(O, b) then Some(O)
    else None
  }

  predicate HasEmpty(b: Board) {
    exists i, j :: 0 <= i < 3 && 0 <= j < 3 && b[i][j] == None
  }

  /** Scans for an empty cell with an early return, as has_empty_cell() does. */
  method HasEmptyCell(b: Board) returns (e: bool)
    ensures e <==> HasEmpty(b)
  {
    var i := 0;
    while i < 3
      invariant 0 <= i <= 3
      invariant forall i', j' :: 0 <= i' < i && 0 <= j' < 3 ==> b[i'][j'] != None
    {
      var j := 0;
      while j < 3
        invariant 0 <= j <= 3
        invariant forall j' :: 0 <= j' < j ==> b[i][j'] != None
      {
        if b[i][j] == None {
          return true;
        }
        j := j + 1;
      }
      i := i + 1;
    }
    return false;
  }

  /** The game is over when someone owns a line or no cell is empty. */
  predicate Terminal(b: Board) {
    if PlayerWin(X, b) then true
    else if PlayerWin(O, b) then true
    else !HasEmpty(b)
  }

  /** 1 if X has a line, else -1 if O has one, else 0. */
  function Utility(b: Board): int {
    if PlayerWin(X, b) then 1
    else if PlayerWin(O, b) then -1
    else 0
  }

  /** winner, utility and terminal agree: X is checked before O, and the game ends on a line or a full board. */
  lemma EndOfGameConsistent(b: Board)
    ensures Winner(b) == Some(X) <==> PlayerWin(X, b)
    ensures Winner(b) == Some(O) <==> PlayerWin(O, b) && !PlayerWin(X, b)
    ensures Winner(b) == None <==> !PlayerWin(X, b) && !PlayerWin(O, b)
    ensures Utility(b) == match Winner(b) case Some(X) => 1 case Some(O) => -1 case None => 0
    ensures Terminal(b) <==> Winner(b).Some? || ActionsOf(b) == []
  {
    HasEmptyIffActions(b);
  }

  lemma HasEmptyIffActions(b: Board)
    ensures HasEmpty(b) <==> ActionsOf(b) != []
  {
    if HasEmpty(b) {
      var i, j :| 0 <= i < 3 && 0 <= j < 3 && b[i][j] == None;
      assert (i, j) in ActionsOf(b) by {
        ActionsOfSpec(b);
      }
    }
    if ActionsOf(b) != [] {
      var a := ActionsOf(b)[0];
      assert Legal(b, a) by {
        ActionsOfSpec(b);
      }
    }
  }

  /** An empty board, such as the starting one, is balanced and unfilled, X is to move, and all nine cells are moves. */
  lemma EmptyBoardFacts(b: Board)
    requires forall i, j :: 0 <= i < 3 && 0 <= j < 3 ==> b[i][j] == None
    ensures Balanced(b) && Filled(b) == 0 && ToMove(b) == X
    ensures |ActionsOf(b)| == 9
  {
    Absent(b, X, 9);
    Absent(b, O, 9);
    AllEmptyCells(b, 9);
  }

  lemma {:induction false} Absent(b: Board, m: Mark, k: nat)
    requires k <= 9 && forall i, j :: 0 <= i < 3 && 0 <= j < 3 ==> b[i][j] != Some(m)
    ensures CountUpTo(b, m, k) == 0
  {
    if k > 0 {
      Absent(b, m, k - 1);
    }
  }

  lemma {:induction false} AllEmptyCells(b: Board, k: nat)
    requires k <= 9 && forall i, j :: 0 <= i < 3 && 0 <= j < 3 ==> b[i][j] == None
    ensures |EmptyCells(b, k)| == k
  {
    if k > 0 {
      AllEmptyCells(b, k - 1);
    }
  }

  /** A legal move adds one mark of the side to move, at the action's row-major position, and no other mark. */
  lemma {:induction false} CountAfterMove(b: Board, a: Action, m: Mark, k: nat)
    requires Legal(b, a) && k <= 9
    ensures Apply(b, a).Some?
    ensures CountUpTo(Apply(b, a).value, m, k) == CountUpTo(b, m, k) + if Index(a) < k && ToMove(b) == m then 1 else 0
  {
    if k > 0 {
      CountAfterMove(b, a, m, k - 1);
      var i, j := At(k - 1).0, At(k - 1).1;
      assert Index(a) == k - 1 <==> a == (i, j);
      ApplyCells(b, a);
    }
  }

  /** From a balanced board a legal move keeps it balanced, fills one more cell, and passes the turn. */
  lemma MoveKeepsBalance(b: Board, a: Action)
    requires Legal(b, a) && Balanced(b)
    ensures Apply(b, a).Some?
    ensures Balanced(Apply(b, a).value)
    ensures Filled(Apply(b, a).value) == Filled(b) + 1
    ensures ToMove(Apply(b, a).value) != ToMove(b)
  {
    CountAfterMove(b, a, X, 9);
    CountAfterMove(b, a, O, 9);
  }

  /** result() only writes at non-negative indices, so an action with a negative component is no move at all. */
  lemma NegativeActionIsNoMove(b: Board, a: Action)
    requires InBounds(a) && (a.0 < 0 || a.1 < 0)
    requires b[Wrap(a.0)][Wrap(a.1)] == None
    ensures Apply(b, a) == Some(b)
    ensures Filled(Apply(b, a).value) == Filled(b)
  {
  }
}
