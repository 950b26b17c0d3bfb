/**
 * Tic-tac-toe rules and the minimax player of Tictactoe/tictactoe.py.
 *
 * Boards are values: `result` deep-copies before writing one cell, so no
 * board is ever mutated and every rule is a function.  A cell holds a mark
 * or `None` (the source's EMPTY).
 */
module TicTacToe {
  import opened Wrappers
  import opened Lists

  datatype Mark = X | O

  type Cell = Option<Mark>

  predicate IsBoard(b: seq<seq<Cell>>) {
    |b| == 3 && forall i | 0 <= i < 3 :: |b[i]| == 3
  }

  /** A 3x3 grid, addressed as b[row][column]. */
  type Board = b: seq<seq<Cell>> | IsBoard(b)
    witness [[None, None, None], [None, None, None], [None, None, None]]

  /** A move (i, j): row i, column j. */
  type Action = (int, int)

  predicate InRange(a: Action) {
    0 <= a.0 < 3 && 0 <= a.1 < 3
  }

  /** The positions holding `c`; with c == None these are the free cells. */
  function CellsHolding(b: Board, c: Cell): set<Action> {
    set i, j | 0 <= i < 3 && 0 <= j < 3 && b[i][j] == c :: (i, j)
  }

  lemma CellsHoldingMember(b: Board, c: Cell, a: Action)
    ensures a in CellsHolding(b, c) <==> InRange(a) && b[a.0][a.1] == c
  {
    if InRange(a) && b[a.0][a.1] == c {
      var (i, j) := a;
      assert (i, j) in CellsHolding(b, c);
    }
  }

  // ---------------------------------------------------------------------
  // Rules
  // ---------------------------------------------------------------------

  function InitialState(): (r: Board)
    ensures forall i, j | 0 <= i < 3 && 0 <= j < 3 :: r[i][j] == None
  {
    [[None, None, None], [None, None, None], [None, None, None]]
  }

  /** O moves when X has placed more marks than O, otherwise X moves. */
  function Player(b: Board): (r: Mark)
    ensures r == O <==> |CellsHolding(b, Some(X))| > |CellsHolding(b, Some(O))|
  {
    if |CellsHolding(b, Some(X))| > |CellsHolding(b, Some(O))| then O else X
  }

  /** The set of legal moves: every in-range position whose cell is empty. */
  function Actions(b: Board): (r: set<Action>)
    ensures forall a :: a in r <==> InRange(a) && b[a.0][a.1] == None
  {
    var r := CellsHolding(b, None);
    assert forall a :: a in r <==> InRange(a) && b[a.0][a.1] == None by {
      forall a ensures a in r <==> InRange(a) && b[a.0][a.1] == None {
        CellsHoldingMember(b, None, a);
      }
    }
    r
  }

  datatype MoveResult = Moved(board: Board) | ValueError

  /**
   * The board after the player to move marks cell (i, j).  Playing on an
   * occupied cell is the source's ValueError.
   */
  function Result(b: Board, a: Action): (r: MoveResult)
    requires InRange(a)
    ensures r.Moved? <==> b[a.0][a.1] == None
    ensures r.Moved? ==> r.board[a.0][a.1] == Some(Player(b))
    ensures r.Moved? ==> forall i, j | 0 <= i < 3 && 0 <= j < 3 && (i, j) != a :: r.board[i][j] == b[i][j]
    ensures r.Moved? ==> Actions(r.board) == Actions(b) - {a}
  {
    var (i, j) := a;
    if b[i][j] == None then
      var nb: Board := b[i := b[i][j := Some(Player(b))]];
      assert Actions(nb) == Actions(b) - {a} by {
        forall c ensures c in Actions(nb) <==> c in Actions(b) - {a} {
        }
      }
      Moved(nb)
    else
      ValueError
  }

  /** The eight lines of three cells: rows, columns and the two diagonals. */
  const Lines: seq<(Action, Action, Action)> := [
    ((0, 0), (0, 1), (0, 2)), ((1, 0), (1, 1), (1, 2)), ((2, 0), (2, 1), (2, 2)),
    ((0, 0), (1, 0), (2, 0)), ((0, 1), (1, 1), (2, 1)), ((0, 2), (1, 2), (2, 2)),
    ((0, 0), (1, 1), (2, 2)), ((2, 0), (1, 1), (0, 2))
  ]

  predicate FillsLine(b: Board, p: Mark, k: nat)
    requires k < |Lines|
  {
    var (c0, c1, c2) := Lines[k];
    b[c0.0][c0.1] == Some(p) && b[c1.0][c1.1] == Some(p) && b[c2.0][c2.1] == Some(p)
  }

  /** Reference definition of a win: p holds all three cells of some line. */
  predicate HasLine(b: Board, p: Mark) {
    exists k | 0 <= k < |Lines| :: FillsLine(b, p, k)
  }

  /** The mark, if any, that fills row or column i. */
  predicate SameMark(x: Cell, y: Cell, z: Cell) {
    x == y && y == z && x != None
  }

  /**
   * The loop over i in 0..2 of `winner`, from row/column i on: row i is
   * checked before column i, and the diagonals after the last column.
   */
  function WinnerFrom(b: Board, i: nat): (r: Option<Mark>)
    requires i <= 3
    ensures r.Some? ==> HasLine(b, r.value)
    ensures r.None? ==> forall k | 0 <= k < |Lines| && (k % 3 >= i || k >= 6) ::
                          !FillsLine(b, X, k) && !FillsLine(b, O, k)
    decreases 3 - i
  {
    if i < 3 && SameMark(b[i][0], b[i][1], b[i][2]) then
      assert FillsLine(b, b[i][0].value, i);
      b[i][0]
    else if i < 3 && SameMark(b[0][i], b[1][i], b[2][i]) then
      assert FillsLine(b, b[0][i].value, 3 + i);
      b[0][i]
    else if i < 3 then
      WinnerFrom(b, i + 1)
    else if SameMark(b[0][0], b[1][1], b[2][2]) then
      assert FillsLine(b, b[0][0].value, 6);
      b[0][0]
    else if SameMark(b[2][0], b[1][1], b[0][2]) then
      assert FillsLine(b, b[2][0].value, 7);
      b[2][0]
    else
      None
  }

  /** The winner: a mark only if it fills a line, and None only if no mark does. */
  function Winner(b: Board): (r: Option<Mark>)
    ensures r.Some? ==> HasLine(b, r.value)
    ensures r.None? <==> !HasLine(b, X) && !HasLine(b, O)
  {
    var r := WinnerFrom(b, 0);
    assert r.Some? ==> r.value == X || r.value == O;
    r
  }

  /** The game is over when someone has won or no cell is free. */
  function Terminal(b: Board): (r: bool)
    ensures r <==> HasLine(b, X) || HasLine(b, O) || Actions(b) == {}
  {
    if Winner(b) != None then true
    else CellsHolding(b, None) == {}
  }

  function Utility(b: Board): (r: int)
    ensures -1 <= r <= 1
    ensures r == 1 ==> HasLine(b, X)
    ensures r == -1 ==> HasLine(b, O)
    ensures r == 0 <==> !HasLine(b, X) && !HasLine(b, O)
  {
    match Winner(b)
    case Some(X) => 1
    case Some(O) => -1
    case None => 0
  }

  // ---------------------------------------------------------------------
  // Minimax
  // ---------------------------------------------------------------------

  /** The free cells in row-major order; the order in which `actions` is scanned. */
  function FreeFrom(b: Board, k: nat): (r: seq<Action>)
    requires k <= 9
    ensures forall a :: a in r <==> InRange(a) && b[a.0][a.1] == None && 3 * a.0 + a.1 >= k
    decreases 9 - k
  {
    if k == 9 then []
    else if b[k / 3][k % 3] == None then [(k / 3, k % 3)] + FreeFrom(b, k + 1)
    else FreeFrom(b, k + 1)
  }

  function ActionList(b: Board): (r: seq<Action>)
    ensures forall a :: a in r <==> a in Actions(b)
  {
    FreeFrom(b, 0)
  }

  /** `Min_Value`: the utility of a finished game, otherwise the scan of every move. */
  function MinValue(b: Board, v: int): (r: int)
    ensures -1 <= r <= 1
    decreases |Actions(b)|, 1, 0
  {
    if Terminal(b) then Utility(b)
    else MinScan(b, v, ActionList(b), [])
  }

  /** `Max_Value`, the mirror image of MinValue. */
  function MaxValue(b: Board, v: int): (r: int)
    ensures -1 <= r <= 1
    decreases |Actions(b)|, 1, 0
  {
    if Terminal(b) then Utility(b)
    else MaxScan(b, v, ActionList(b), [])
  }

  /**
   * The loop of `Min_Value` over the moves still to try: a reply value below
   * the cutoff v is returned at once, otherwise the least value seen.
   */
  function MinScan(b: Board, v: int, acts: seq<Action>, seen: seq<int>): (r: int)
    requires forall a | a in acts :: a in Actions(b)
    requires acts != [] || seen != []
    requires forall k | 0 <= k < |seen| :: -1 <= seen[k] <= 1
    ensures -1 <= r <= 1
    decreases |Actions(b)|, 0, |acts|
  {
    if acts == [] then Min(seen)
    else
      assert acts[0] in acts;
      var w := MaxValue(Result(b, acts[0]).board, v);
      if w < v then w
      else
        assert forall a | a in acts[1..] :: a in acts;
        var more := seen + [w];
        assert forall k | 0 <= k < |more| :: more[k] == if k < |seen| then seen[k] else w;
        MinScan(b, v, acts[1..], more)
  }

  function MaxScan(b: Board, v: int, acts: seq<Action>, seen: seq<int>): (r: int)
    requires forall a | a in acts :: a in Actions(b)
    requires acts != [] || seen != []
    requires forall k | 0 <= k < |seen| :: -1 <= seen[k] <= 1
    ensures -1 <= r <= 1
    decreases |Actions(b)|, 0, |acts|
  {
    if acts == [] then Max(seen)
    else
      assert acts[0] in acts;
      var w := MinValue(Result(b, acts[0]).board, v);
      if w > v then w
      else
        assert forall a | a in acts[1..] :: a in acts;
        var more := seen + [w];
        assert forall k | 0 <= k < |more| :: more[k] == if k < |seen| then seen[k] else w;
        MaxScan(b, v, acts[1..], more)
  }

  /**
   * `minimax`: X keeps the move with the highest Min_Value, O the one with
   * the lowest Max_Value.  The starting bound (-2 or 2) lies outside the
   * utility range, so the first move scanned is always taken; a board with
   * no free cell leaves `act_opt` unbound in the source, here None.
   */
  method Minimax(b: Board) returns (act: Option<Action>)
    ensures act.Some? <==> Actions(b) != {}
    ensures act.Some? ==> act.value in Actions(b)
  {
    var acts := ActionList(b);
    assert Actions(b) != {} ==> acts != [] by {
      if Actions(b) != {} {
        var a :| a in Actions(b);
        assert a in acts;
      }
    }
    act := None;
    var k := 0;
    if Player(b) == X {
      var v := -2;
      while k < |acts|
        invariant 0 <= k <= |acts|
        invariant act.Some? <==> k > 0
        invariant act.Some? ==> act.value in Actions(b)
        invariant k > 0 ==> -1 <= v <= 1
        invariant k == 0 ==> v == -2
      {
        var vAct := MinValue(Result(b, acts[k]).board, v);
        if vAct > v {
          act := Some(acts[k]);
          v := vAct;
        }
        k := k + 1;
      }
    } else {
      var v := 2;
      while k < |acts|
        invariant 0 <= k <= |acts|
        invariant act.Some? <==> k > 0
        invariant act.Some? ==> act.value in Actions(b)
        invariant k > 0 ==> -1 <= v <= 1
        invariant k == 0 ==> v == 2
      {
        var vAct := MaxValue(Result(b, acts[k]).board, v);
        if vAct < v {
          act := Some(acts[k]);
          v := vAct;
        }
        k := k + 1;
      }
    }
  }

  // ---------------------------------------------------------------------
  // Properties of play
  // ---------------------------------------------------------------------

  /** Turns alternate: X has placed as many marks as O, or one more. */
  predicate Alternating(b: Board) {
    var nx, no := |CellsHolding(b, Some(X))|, |CellsHolding(b, Some(O))|;
    nx == no || nx == no + 1
  }

  /** A move adds exactly one mark, of the player to move, and frees nothing. */
  lemma {:induction false} ResultCounts(b: Board, a: Action)
    requires a in Actions(b)
    ensures CellsHolding(Result(b, a).board, Some(Player(b))) == CellsHolding(b, Some(Player(b))) + {a}
    ensures a !in CellsHolding(b, Some(Player(b)))
    ensures var q := if Player(b) == X then O else X;
            CellsHolding(Result(b, a).board, Some(q)) == CellsHolding(b, Some(q))
  {
    var nb := Result(b, a).board;
    var p := Player(b);
    var q := if p == X then O else X;
    forall c ensures c in CellsHolding(nb, Some(p)) <==> c in CellsHolding(b, Some(p)) + {a} {
      CellsHoldingMember(nb, Some(p), c);
      CellsHoldingMember(b, Some(p), c);
    }
    forall c ensures c in CellsHolding(nb, Some(q)) <==> c in CellsHolding(b, Some(q)) {
      CellsHoldingMember(nb, Some(q), c);
      CellsHoldingMember(b, Some(q), c);
    }
    CellsHoldingMember(b, Some(p), a);
  }

  /** From an alternating board every legal move keeps turns alternating and passes the turn. */
  lemma {:induction false} ResultAlternates(b: Board, a: Action)
    requires Alternating(b) && a in Actions(b)
    ensures Alternating(Result(b, a).board)
    ensures Player(Result(b, a).board) != Player(b)
  {
    ResultCounts(b, a);
  }

  lemma InitialStateFacts()
    ensures Alternating(InitialState()) && Player(InitialState()) == X
    ensures !Terminal(InitialState())
    ensures forall a :: InRange(a) <==> a in Actions(InitialState())
  {
    var b := InitialState();
    assert CellsHolding(b, Some(X)) == {} by {
      forall c ensures c !in CellsHolding(b, Some(X)) {
        CellsHoldingMember(b, Some(X), c);
      }
    }
    assert CellsHolding(b, Some(O)) == {} by {
      forall c ensures c !in CellsHolding(b, Some(O)) {
        CellsHoldingMember(b, Some(O), c);
      }
    }
    assert !HasLine(b, X) && !HasLine(b, O);
    assert (0, 0) in Actions(b);
  }

  /** Two finished games of Tictactoe/test.py: a top row of X, and a full board won by O. */
  lemma EndingScenarios()
    ensures var b: Board := [[Some(X), Some(X), Some(X)], [Some(O), None, Some(O)], [Some(O), Some(X), None]];
            Winner(b) == Some(X) && Terminal(b) && Utility(b) == 1
    ensures var b: Board := [[Some(X), Some(O), Some(X)], [Some(X), Some(X), Some(O)], [Some(O), Some(O), Some(O)]];
            Winner(b) == Some(O) && Terminal(b) && Utility(b) == -1
  {
  }
}
